/**
 * The frame-buffer context as the source keeps it: one object whose fields
 * the drawing and terminal functions update in place, over a frame buffer
 * of `full_height` pixel rows of `pitch` bytes. Every method is proved
 * against the meaning the `Tty` and `Display` modules give it: the state
 * it leaves is the function of the state it found.
 */
module Terminal {
  import opened Bytes
  import opened Geometry
  import opened Image
  import opened Scanner
  import Tty
  import Display

  class Terminal {
    /** The whole frame buffer: `fb[y, x]` is pixel column `x` of pixel row `y`. */
    const fb: array2<byte>
    /** Visible width in pixels (the pitch is `fb.Length1`). */
    const width: nat
    /** The font tables. */
    const glyph: Display.Glyph
    /** The parameter slots of the scanner. */
    const cmdParams: array<u32>
    /** The cell saved from under the cursor. */
    const cursorBuffer: array<byte>

    var fontHeight: nat
    var fontWidth: nat
    var lineLimit: nat
    var border: nat
    var height: nat
    var rows: nat
    var columns: nat
    var cursorRow: nat
    var cursorColumn: nat
    var savedRow: nat
    var savedColumn: nat
    var cursorVisible: bool
    var wraparound: bool
    var cursorBlink: bool
    var regionStart: nat
    var regionEnd: nat
    var fg: byte
    var bg: byte
    var inverse: bool

    var next: Mode
    var cmdParamsSize: nat
    var privateMode: byte

    /** Bytes sent back to the host. */
    var output: seq<byte>

    ghost function Term(): Tty.Term
      reads this
    {
      Tty.Term(fb.Length0, fb.Length1, width, fontHeight, fontWidth, lineLimit, border, height, rows, columns,
               cursorRow, cursorColumn, savedRow, savedColumn, cursorVisible, wraparound, cursorBlink,
               regionStart, regionEnd, Tty.Attrs(fg, bg, inverse))
    }

    ghost function Scan(): ScanState
      reads this, cmdParams
    {
      ScanState(next, cmdParams[..], cmdParamsSize, privateMode)
    }

    ghost function Pixels(): (img: Image)
      reads fb
      ensures |img| == fb.Length0 && Rectangular(img, fb.Length1)
    {
      seq(fb.Length0, i requires 0 <= i < fb.Length0 reads fb =>
        seq(fb.Length1, j requires 0 <= j < fb.Length1 reads fb => fb[i, j]))
    }

    ghost function State(): Display.Vt
      reads this, fb, cmdParams, cursorBuffer
    {
      Display.Vt(Term(), Scan(), Pixels(), cursorBuffer[..], output)
    }

    /** The arrays have their sizes and the scanner is well formed. */
    ghost predicate Framed()
      reads this, fb, cmdParams, cursorBuffer
      ensures Framed() ==> Display.Framed(State())
    {
      cmdParams.Length == MAX_PARAMS && cursorBuffer.Length == Display.CURSOR_BUFFER_SIZE
      && Wellformed(Scan())
    }

    /** The state between two bytes. */
    ghost predicate Valid()
      reads this, fb, cmdParams, cursorBuffer
      ensures Valid() ==> Display.Consistent(State())
    {
      Framed() && Tty.Valid(Term())
    }

    /** The fields a terminal operation leaves alone: the scanner's mode, count and marker, and the output. */
    ghost function Others(): (Mode, nat, byte, seq<byte>)
      reads this
    {
      (next, cmdParamsSize, privateMode, output)
    }

    /** The parameters collected so far. */
    ghost function Params(): seq<u32>
      reads this, cmdParams
      requires cmdParamsSize <= cmdParams.Length
    {
      cmdParams[..cmdParamsSize]
    }

    /**
     * `gfx_set_env`: a terminal over the frame buffer `fb`, whose first
     * `width` pixels of each row are visible. The first font selection runs
     * with the zero-initialised context, so with no line limit and over an
     * empty active area, which it clears without touching a pixel; the
     * configured line limit is stored afterwards. Everything else starts
     * from zero: cursor and saved cursor home, no parameters, no output.
     */
    constructor (fb: array2<byte>, width: nat, glyph: Display.Glyph, fontHeight: nat, screenLines: nat)
      requires SupportedFontHeight(fontHeight)
      requires Tty.MIN_FULL_HEIGHT <= fb.Length0 < 0x8000_0000 && Tty.MIN_WIDTH <= width <= fb.Length1 < 0x8000_0000
      requires screenLines != 1
      ensures Valid() && this.fb == fb && this.width == width && this.glyph == glyph
      ensures Term() == Tty.Initial(fb.Length0, fb.Length1, width, fontHeight, screenLines)
      ensures Scan() == Scanner.Initial && output == []
      ensures fresh(cmdParams) && fresh(cursorBuffer)
    {
      this.fb := fb;
      this.width := width;
      this.glyph := glyph;
      cmdParams := new u32[MAX_PARAMS](_ => 0);
      cursorBuffer := new byte[Display.CURSOR_BUFFER_SIZE](_ => 0);
      ghost var t := Tty.Initial(fb.Length0, fb.Length1, width, fontHeight, screenLines);
      var fw := if fontHeight == 20 then 10 else 8;
      this.fontHeight, fontWidth := fontHeight, fw;
      var g := ScreenLayout(fb.Length0, fontHeight, 0);
      border, height, rows := g.border, g.height, g.rows;
      cursorRow, cursorColumn := 0, 0;
      savedRow, savedColumn := 0, 0;
      columns := width / fw;
      cursorVisible, wraparound := true, true;
      regionStart, regionEnd := 0, g.rows - 1;
      cursorBlink := true;
      next := NormalText;
      cmdParamsSize, privateMode := 0, 0;
      bg, fg, inverse := 0, 15, false;
      lineLimit := screenLines;
      output := [];
      new;
      assert cmdParams[..] == seq(MAX_PARAMS, _ => 0);
    }

    // -------------------------------------------------------------------
    // Block transfers of the DMA engine

    /** Pixel rows `lo..hi` filled with colour `c`. */
    method FillPixelRows(lo: nat, hi: nat, c: byte)
      requires lo <= hi <= fb.Length0
      modifies fb
      ensures Pixels() == FillRows(old(Pixels()), lo, hi, c)
    {
      forall i, j | lo <= i < hi && 0 <= j < fb.Length1 {
        fb[i, j] := c;
      }
      ghost var r := FillRows(old(Pixels()), lo, hi, c);
      forall i | 0 <= i < fb.Length0
        ensures Pixels()[i] == r[i]
      {
      }
    }

    /**
     * Pixel rows `src..src+count` copied onto `dst..dst+count`. The engine
     * copies in increasing address order, which is the same as a copy of
     * the block as a whole when the target lies above the source or the two
     * do not overlap.
     */
    method MovePixelRows(dst: nat, src: nat, count: nat)
      requires src + count <= fb.Length0 && dst + count <= fb.Length0
      requires dst <= src || src + count <= dst
      modifies fb
      ensures Pixels() == MoveRows(old(Pixels()), dst, src, count)
    {
      ghost var before := Pixels();
      forall i, j | dst <= i < dst + count && 0 <= j < fb.Length1 {
        fb[i, j] := fb[src + i - dst, j];
      }
      ghost var r := MoveRows(before, dst, src, count);
      forall i | 0 <= i < fb.Length0
        ensures Pixels()[i] == r[i]
      {
        var k := if dst <= i < dst + count then src + i - dst else i;
        assert r[i] == before[k];
        forall j | 0 <= j < fb.Length1
          ensures Pixels()[i][j] == before[k][j]
        {
        }
      }
    }

    /** The two-dimensional fill: columns `left..left+w` of pixel rows `top..top+h` set to `c`. */
    method FillPixelBox(top: nat, left: nat, h: nat, w: nat, c: byte)
      requires top + h <= fb.Length0
      modifies fb
      ensures Pixels() == FillArea(old(Pixels()), top, left, h, w, c)
    {
      forall i, j | top <= i < top + h && left <= j < left + w && j < fb.Length1 {
        fb[i, j] := c;
      }
      ghost var r := FillArea(old(Pixels()), top, left, h, w, c);
      forall i | 0 <= i < fb.Length0
        ensures Pixels()[i] == r[i]
      {
      }
    }

    /**
     * The packed `h`-by-`w` cell `p` written with its top left corner at
     * pixel row `top`, column `left`, one pixel at a time, row after row.
     */
    method DrawCell(top: nat, left: nat, h: nat, w: nat, p: seq<byte>)
      requires h * w <= |p| && top + h <= fb.Length0 && left + w <= fb.Length1
      modifies fb
      ensures Pixels() == WriteCell(old(Pixels()), top, left, h, w, p)
    {
      var y := 0;
      while y < h
        invariant 0 <= y <= h
        invariant forall i, j | 0 <= i < fb.Length0 && 0 <= j < fb.Length1 ::
          fb[i, j] == if top <= i < top + y && left <= j < left + w then CellPixel(p, h, w, i - top, j - left)
                      else old(fb[i, j])
      {
        var x := 0;
        while x < w
          invariant 0 <= x <= w
          invariant forall i, j | 0 <= i < fb.Length0 && 0 <= j < fb.Length1 ::
            fb[i, j] == if (top <= i < top + y && left <= j < left + w) || (i == top + y && left <= j < left + x)
                        then CellPixel(p, h, w, i - top, j - left)
                        else old(fb[i, j])
        {
          fb[top + y, left + x] := CellPixel(p, h, w, y, x);
          x := x + 1;
        }
        y := y + 1;
      }
      ghost var r := WriteCell(old(Pixels()), top, left, h, w, p);
      forall i | 0 <= i < fb.Length0
        ensures Pixels()[i] == r[i]
      {
      }
    }

    // -------------------------------------------------------------------
    // Drawing

    /** `gfx_clear`: the active area in the effective background colour. */
    method Clear()
      requires Framed() && 2 * border + height == fb.Length0
      modifies fb
      ensures Pixels() == Display.Apply(old(Pixels()), Tty.ClearScreen(Term()))
    {
      FillPixelRows(border, border + height, if inverse then fg else bg);
    }

    /**
     * `gfx_scroll_up`: one block move of text rows `start+lines..end` up to
     * `start`, then the bottom `lines` text rows filled.
     */
    method ScrollUp(start: nat, end: nat, lines: nat)
      requires Tty.LinesOnArea(Term(), start, end) && start + lines <= end + 1
      modifies fb
      ensures Pixels() == Display.Apply(old(Pixels()), Tty.ScrollUpLines(Term(), start, end, lines))
    {
      var pixelsPerLine := fontHeight;
      var top := border;
      var from := top + (lines + start) * pixelsPerLine;
      var to := top + start * pixelsPerLine;
      var length := (end - start - lines + 1) * pixelsPerLine;
      var fillFrom := top + (end - lines + 1) * pixelsPerLine;
      var fillLength := lines * pixelsPerLine;
      var c := if inverse then fg else bg;
      ScrollUpPlan(Pixels(), Term(), start, end, lines, to, from, length, fillFrom, fillLength);
      MoveAndFill(to, from, length, fillFrom, fillLength, c);
    }

    /**
     * The two transfers of `gfx_scroll_up`: `length` pixel rows from `from`
     * up to `to`, then the `fillLength` rows from `fillFrom` on filled.
     */
    method MoveAndFill(to: nat, from: nat, length: nat, fillFrom: nat, fillLength: nat, c: byte)
      requires from == to + fillLength && to + length == fillFrom && fillFrom + fillLength <= fb.Length0
      modifies fb
      ensures Pixels() == ScrollUpRows(old(Pixels()), to, fillFrom + fillLength, fillLength, c)
    {
      if length > 0 {
        MovePixelRows(to, from, length);
      } else {
        MoveNothing(old(Pixels()), to, from);
      }
      FillPixelRows(fillFrom, fillFrom + fillLength, c);
    }

    /**
     * `gfx_scroll_down`, with a row counter that stops at `start`: the
     * count is cut to `end - start`, text rows are moved down by it one at
     * a time from the lowest one up, and the top rows of the range left
     * behind are filled. (The source counts with an unsigned integer and
     * the test `counter >= start`, which never fails for a `start` of 0;
     * see `ScrollDownCounter`.)
     */
    method ScrollDown(start: nat, end: nat, lines: nat)
      requires Tty.LinesOnArea(Term(), start, end)
      modifies fb
      ensures Pixels() == Display.Apply(old(Pixels()), Tty.ScrollDownLines(old(Term()), start, end, lines))
    {
      var pixelsPerLine := fontHeight;
      var n := Min(lines, end - start);
      var top := border;
      var c := if inverse then fg else bg;
      ScrollDownPlan(Pixels(), Term(), start, end, lines, top + start * pixelsPerLine,
                     top + (end + 1) * pixelsPerLine, n * pixelsPerLine);
      MoveDownAndFill(top, pixelsPerLine, start, end, n, c);
    }

    /**
     * The transfers of `gfx_scroll_down`: the row loop, then the `n` text
     * rows from `start` on filled.
     */
    method MoveDownAndFill(top: nat, pixelsPerLine: nat, start: nat, end: nat, n: nat, c: byte)
      requires start + n <= end && top + (end + 1) * pixelsPerLine <= fb.Length0
      modifies fb
      ensures top + start * pixelsPerLine + n * pixelsPerLine <= top + (end + 1) * pixelsPerLine
      ensures Pixels() == ScrollDownRows(old(Pixels()), top + start * pixelsPerLine, top + (end + 1) * pixelsPerLine,
                                         n * pixelsPerLine, c)
    {
      LineOffsets(top, pixelsPerLine, start, end, n);
      MoveLinesDown(top, pixelsPerLine, start, end, n);
      FillPixelRows(top + start * pixelsPerLine, top + start * pixelsPerLine + n * pixelsPerLine, c);
    }

    /**
     * The row loop of `gfx_scroll_down`: text rows `end-n` down to `start`
     * each moved `n` text rows down, the lowest first, so that no row is
     * overwritten before it has been moved. The counter `line` is one above
     * the row being moved, so it stops at `start` without going below 0.
     */
    method MoveLinesDown(top: nat, pixelsPerLine: nat, start: nat, end: nat, n: nat)
      requires start + n <= end && top + (end + 1) * pixelsPerLine <= fb.Length0
      modifies fb
      ensures Pixels() == MoveRows(old(Pixels()), top + (start + n) * pixelsPerLine, top + start * pixelsPerLine,
                                   (end - start - n + 1) * pixelsPerLine)
    {
      ghost var img := Pixels();
      ghost var hi := top + (end + 1) * pixelsPerLine;
      ghost var k := n * pixelsPerLine;
      // `line` is one more than the next text row to move
      var line: nat := end - n + 1;
      ghost var from: nat := top + line * pixelsPerLine;
      assert from == top + Span(line, pixelsPerLine) && from + k == hi && (k == 0 || pixelsPerLine <= k) by {
        Shift(end - n + 1, n, pixelsPerLine);
        SpanIsProduct(line, pixelsPerLine);
        MulLe(1, n, pixelsPerLine);
      }
      MoveNothing(img, from + k, from);
      while line > start
        invariant start <= line <= end - n + 1
        invariant from == top + Span(line, pixelsPerLine) && from + k <= hi
        invariant Pixels() == MoveRows(img, from + k, from, hi - k - from)
      {
        var src := top + (line - 1) * pixelsPerLine;
        var dst := top + (line - 1 + n) * pixelsPerLine;
        assert src == top + Span(line - 1, pixelsPerLine) && dst == src + k by {
          SpanIsProduct(line - 1, pixelsPerLine);
          Shift(line - 1, n, pixelsPerLine);
        }
        MoveLineDown(img, dst, src, pixelsPerLine, k, from, hi);
        line := line - 1;
        from := src;
      }
      assert hi - k - from == (end - start - n + 1) * pixelsPerLine && from + k == top + (start + n) * pixelsPerLine by {
        SpanIsProduct(start, pixelsPerLine);
        LineOffsets(top, pixelsPerLine, start, end, n);
      }
    }

    /**
     * One step of the row loop of `gfx_scroll_down`: with the block below
     * already moved, the `h` pixel rows just above it are moved as well.
     */
    method MoveLineDown(ghost img: Image, dst: nat, src: nat, h: nat, ghost k: nat, ghost from: nat, ghost hi: nat)
      requires src + h == from && dst == src + k && (k == 0 || h <= k)
      requires from + k <= hi <= fb.Length0 && |img| == fb.Length0
      requires Pixels() == MoveRows(img, from + k, from, hi - k - from)
      modifies fb
      ensures Pixels() == MoveRows(img, src + k, src, hi - k - src)
    {
      MovePixelRows(dst, src, h);
      MoveRowsExtendAbove(img, dst, src, hi - k - from, h);
    }

    // -------------------------------------------------------------------
    // Terminal settings

    /** `gfx_term_set_cursor_visibility`. */
    method SetCursorVisibility(visible: bool)
      modifies this
      ensures Term() == old(Term()).(cursorVisible := visible)
      ensures Others() == old(Others())
    {
      cursorVisible := visible;
    }

    /** `gfx_term_set_wraparound`. */
    method SetWraparound(on: bool)
      modifies this
      ensures Term() == old(Term()).(wraparound := on)
      ensures Others() == old(Others())
    {
      wraparound := on;
    }

    /** `gfx_term_blink_cursor`: the blink phase flips. */
    method BlinkCursor()
      modifies this
      ensures Term() == old(Term()).(cursorBlink := !old(cursorBlink))
      ensures Others() == old(Others())
    {
      cursorBlink := !cursorBlink;
    }

    /** `gfx_set_fg`. */
    method SetFg(c: byte)
      modifies this
      ensures Term() == old(Term()).(attrs := old(Term()).attrs.(fg := c))
      ensures Others() == old(Others())
    {
      fg := c;
    }

    /** `gfx_set_bg`. */
    method SetBg(c: byte)
      modifies this
      ensures Term() == old(Term()).(attrs := old(Term()).attrs.(bg := c))
      ensures Others() == old(Others())
    {
      bg := c;
    }

    /** `gfx_swap_fg_bg`. */
    method SwapFgBg()
      modifies this
      ensures Term() == old(Term()).(attrs := Tty.SwapFgBg(old(Term()).attrs))
      ensures Others() == old(Others())
    {
      inverse := !inverse;
    }

    /** `gfx_term_reset_attrib`: grey on black, reverse video off. */
    method ResetAttrib()
      modifies this
      ensures Term() == old(Term()).(attrs := Tty.ResetAttrs)
      ensures Others() == old(Others())
    {
      SetBg(0);
      SetFg(7);
      inverse := false;
    }

    /** `gfx_get_term_size`: the rows and columns of the grid. */
    method TermSize() returns (r: nat, c: nat)
      ensures r == Term().rows && c == Term().columns
    {
      r, c := rows, columns;
    }

    /** `gfx_term_move_cursor`. */
    method MoveCursor(row: int, col: int)
      requires Tty.Valid(Term())
      modifies this
      ensures Term() == Tty.MoveCursor(old(Term()), row, col)
      ensures Others() == old(Others())
    {
      cursorRow := Min(rows - 1, if row > 0 then row else 0);
      cursorColumn := Min(columns - 1, if col > 0 then col else 0);
    }

    /** `gfx_term_save_cursor`. */
    method SaveCursor()
      requires Tty.Valid(Term())
      modifies this
      ensures Term() == Tty.SaveCursor(old(Term()))
      ensures Others() == old(Others())
    {
      savedRow := cursorRow;
      savedColumn := cursorColumn;
    }

    /** `gfx_term_restore_cursor`. */
    method RestoreCursor()
      requires Tty.Valid(Term())
      modifies this
      ensures Term() == Tty.RestoreCursor(old(Term()))
      ensures Others() == old(Others())
    {
      cursorRow := savedRow;
      cursorColumn := savedColumn;
    }

    // -------------------------------------------------------------------
    // Rectangles and erasing

    /**
     * `gfx_fill_rect`: nothing when the corner lies off the active area,
     * otherwise the box cut back to the area's edges, in the effective
     * foreground colour.
     */
    method FillRect(x: u32, y: u32, w: u32, h: u32)
      requires Tty.Valid(Term()) && x + w < U32_MODULUS && y + h < U32_MODULUS
      modifies fb
      ensures Pixels() == Display.Apply(old(Pixels()), Tty.FillRect(Term(), x, y, w, h))
    {
      if x >= width || y >= height {
        assert Tty.FillRect(Term(), x, y, w, h) == Tty.Effect.NoEffect;
        return;
      }
      var w', h' := w, h;
      if x + w > width {
        w' := width - x;
      }
      if y + h > height {
        h' := height - y;
      }
      var c := if inverse then bg else fg;
      FillRectPlan(Pixels(), Term(), x, y, w, h, w', h');
      FillPixelBox(border + y, x, h', w', c);
    }

    /** `gfx_clear_rect`: `gfx_fill_rect` with the foreground set to the background for the call. */
    method ClearRect(x: u32, y: u32, w: u32, h: u32)
      requires Valid() && x + w < U32_MODULUS && y + h < U32_MODULUS
      modifies this, fb
      ensures Term() == old(Term()) && Others() == old(Others())
      ensures Pixels() == Display.Apply(old(Pixels()), Tty.ClearRect(old(Term()), x, y, w, h))
    {
      var current := fg;
      fg := bg;
      FillRect(x, y, w, h);
      fg := current;
    }

    /** `gfx_term_clear_till_end`. */
    method ClearTillEnd()
      requires Valid()
      modifies this, fb
      ensures Term() == old(Term()) && Others() == old(Others())
      ensures Pixels() == Display.Apply(old(Pixels()), Tty.ClearTillEnd(old(Term())))
    {
      assert cursorColumn * fontWidth + width < U32_MODULUS && cursorRow * fontHeight + fontHeight < U32_MODULUS by {
        Tty.RowInside(Term(), cursorRow);
        Tty.ColumnInside(Term(), cursorColumn);
      }
      assert Tty.ClearTillEnd(Term()) == Tty.ClearRect(Term(), cursorColumn * fontWidth, cursorRow * fontHeight, width, fontHeight);
      ClearRect(cursorColumn * fontWidth, cursorRow * fontHeight, width, fontHeight);
    }

    /** `gfx_term_clear_till_cursor`. */
    method ClearTillCursor()
      requires Valid()
      modifies this, fb
      ensures Term() == old(Term()) && Others() == old(Others())
      ensures Pixels() == Display.Apply(old(Pixels()), Tty.ClearTillCursor(old(Term())))
    {
      assert (cursorColumn + 1) * fontWidth < U32_MODULUS && cursorRow * fontHeight + fontHeight < U32_MODULUS by {
        Tty.RowInside(Term(), cursorRow);
        Tty.ColumnInside(Term(), cursorColumn);
      }
      assert Tty.ClearTillCursor(Term()) == Tty.ClearRect(Term(), 0, cursorRow * fontHeight, (cursorColumn + 1) * fontWidth, fontHeight);
      ClearRect(0, cursorRow * fontHeight, (cursorColumn + 1) * fontWidth, fontHeight);
    }

    /** `gfx_term_clear_line`. */
    method ClearLine()
      requires Valid()
      modifies this, fb
      ensures Term() == old(Term()) && Others() == old(Others())
      ensures Pixels() == Display.Apply(old(Pixels()), Tty.ClearLine(old(Term())))
    {
      assert cursorRow * fontHeight + fontHeight < U32_MODULUS by {
        Tty.RowInside(Term(), cursorRow);
      }
      assert Tty.ClearLine(Term()) == Tty.ClearRect(Term(), 0, cursorRow * fontHeight, width, fontHeight);
      ClearRect(0, cursorRow * fontHeight, width, fontHeight);
    }

    /** `gfx_term_clear_lines`: text rows `from..to`, cut back to the grid. */
    method ClearLines(from: int, to: int)
      requires Valid()
      modifies this, fb
      ensures Term() == old(Term()) && Others() == old(Others())
      ensures Pixels() == Display.Apply(old(Pixels()), Tty.ClearLines(old(Term()), from, to))
    {
      var lo := if from < 0 then 0 else from;
      var hi := if to > rows - 1 then rows - 1 else to;
      if lo <= hi {
        ClearLinesBox(Term(), from, to, lo, hi);
        ClearRect(0, lo * fontHeight, width, (hi - lo + 1) * fontHeight);
      } else {
        assert Tty.ClearLines(Term(), from, to) == Tty.Effect.NoEffect;
      }
    }

    // -------------------------------------------------------------------
    // The cursor cell

    /**
     * `gfx_putc`: the glyph of `ch` drawn in the cursor cell, set pixels in
     * the effective foreground and the others in the effective background,
     * and the cursor one column on; nothing off the grid.
     */
    method Putc(ch: byte)
      requires Valid()
      modifies this, fb
      ensures State() == Display.Putc(old(State()), glyph, ch)
    {
      if cursorColumn >= columns || cursorRow >= rows {
        return;
      }
      ghost var v := State();
      Display.CursorCellInside(v);
      var top := border + cursorRow * fontHeight;
      var left := cursorColumn * fontWidth;
      var cell := Display.GlyphCell(glyph, ch, fontHeight, fontWidth, Tty.Attrs(fg, bg, inverse));
      assert Display.Putc(v, glyph, ch)
        == v.(img := WriteCell(v.img, top, left, fontHeight, fontWidth, cell), term := v.term.(col := cursorColumn + 1));
      DrawCell(top, left, fontHeight, fontWidth, cell);
      cursorColumn := cursorColumn + 1;
    }

    /** `gfx_restore_cursor_content`: the saved cell written back under the cursor. */
    method RestoreCursorContent()
      requires Valid()
      modifies fb
      ensures State() == Display.RestoreCursorContent(old(State()))
    {
      Display.CursorCellInside(State());
      DrawCell(border + cursorRow * fontHeight, cursorColumn * fontWidth, fontHeight, fontWidth, cursorBuffer[..]);
    }

    /**
     * `gfx_save_cursor_content`: the cell under the cursor copied, row after
     * row, to the front of the cursor buffer.
     */
    method SaveCursorContent()
      requires Valid()
      modifies cursorBuffer
      ensures State() == Display.SaveCursorContent(old(State()))
    {
      Display.CursorCellInside(State());
      var top := border + cursorRow * fontHeight;
      var left := cursorColumn * fontWidth;
      ghost var cell := ReadCell(Pixels(), top, left, fontHeight, fontWidth);
      var pb := 0;
      var y := 0;
      while y < fontHeight
        invariant 0 <= y <= fontHeight && pb == y * fontWidth
        invariant forall k | 0 <= k < pb :: cursorBuffer[k] == cell[k]
        invariant forall k | pb <= k < cursorBuffer.Length :: cursorBuffer[k] == old(cursorBuffer[k])
      {
        pb := CopyCellRow(cell, top, left, fontHeight, fontWidth, y, pb);
        y := y + 1;
      }
      assert cursorBuffer[..] == cell + old(cursorBuffer[..])[pb..];
    }

    /** One pixel row `y` of the cell at `top`, `left` copied to the cursor buffer from byte `pb0` on. */
    method CopyCellRow(ghost cell: seq<byte>, top: nat, left: nat, h: nat, w: nat, y: nat, pb0: nat) returns (pb: nat)
      requires CellInside(Pixels(), top, left, h, w) && cell == ReadCell(Pixels(), top, left, h, w)
      requires y < h && pb0 == y * w && h * w <= cursorBuffer.Length
      modifies cursorBuffer
      ensures pb == pb0 + w == (y + 1) * w <= h * w
      ensures forall k | 0 <= k < pb :: cursorBuffer[k] == if k < pb0 then old(cursorBuffer[k]) else cell[k]
      ensures forall k | pb <= k < cursorBuffer.Length :: cursorBuffer[k] == old(cursorBuffer[k])
    {
      assert (y + 1) * w <= h * w by {
        MulLe(y + 1, h, w);
      }
      pb := pb0;
      var x := 0;
      while x < w
        invariant 0 <= x <= w && pb == pb0 + x
        invariant forall k | 0 <= k < pb :: cursorBuffer[k] == if k < pb0 then old(cursorBuffer[k]) else cell[k]
        invariant forall k | pb <= k < cursorBuffer.Length :: cursorBuffer[k] == old(cursorBuffer[k])
      {
        ReadCellAt(Pixels(), top, left, h, w, y, x);
        cursorBuffer[pb] := fb[top + y, left + x];
        pb := pb + 1;
        x := x + 1;
      }
    }

    // -------------------------------------------------------------------
    // The final letter of a control sequence

    /** CUU, CUD, CUF, CUB (`A`, `B`, `C`, `D`): relative motion by the first parameter, 1 without one, stopped at the grid edge. */
    method CursorMotion(ch: byte)
      requires Tty.Valid(Term()) && cmdParamsSize <= cmdParams.Length
      requires ch in {'A' as int, 'B' as int, 'C' as int, 'D' as int}
      modifies this
      ensures ch == 'A' as int ==> Term() == Tty.CursorUp(old(Term()), old(Params()))
      ensures ch == 'B' as int ==> Term() == Tty.CursorDown(old(Term()), old(Params()))
      ensures ch == 'C' as int ==> Term() == Tty.CursorForward(old(Term()), old(Params()))
      ensures ch == 'D' as int ==> Term() == Tty.CursorBack(old(Term()), old(Params()))
      ensures Others() == old(Others())
    {
      var n := if cmdParamsSize > 0 then AsInt32(cmdParams[0]) else 1;
      if ch == 'A' as int {
        MoveCursor(Max(0, cursorRow - n), cursorColumn);
      } else if ch == 'B' as int {
        MoveCursor(Min(rows - 1, cursorRow + n), cursorColumn);
      } else if ch == 'C' as int {
        MoveCursor(cursorRow, Min(columns - 1, cursorColumn + n));
      } else {
        MoveCursor(cursorRow, Max(0, cursorColumn - n));
      }
    }

    /** CUP / HVP (`H`, `f`): absolute position, 1-based, each coordinate 1 when missing. */
    method CursorPosition()
      requires Tty.Valid(Term()) && cmdParamsSize <= cmdParams.Length
      modifies this
      ensures Term() == Tty.CursorPosition(old(Term()), old(Params()))
      ensures Others() == old(Others())
    {
      var r := if cmdParamsSize < 1 then 1 else AsInt32(cmdParams[0]);
      var c := if cmdParamsSize < 2 then 1 else AsInt32(cmdParams[1]);
      MoveCursor(r - 1, c - 1);
    }

    /** DECSET / DECRST (`h` / `l`): with the `?` marker and one parameter, 7 is wraparound and 25 the cursor. */
    method SetMode(on: bool)
      requires Tty.Valid(Term()) && cmdParamsSize <= cmdParams.Length
      modifies this
      ensures Term() == Tty.SetMode(old(Term()), on, old(Params()), old(privateMode))
      ensures Others() == old(Others())
    {
      if privateMode == '?' as int && cmdParamsSize == 1 {
        if cmdParams[0] == 7 {
          SetWraparound(on);
        } else if cmdParams[0] == 25 {
          SetCursorVisibility(on);
        }
      }
    }

    /**
     * DECSTBM (`r`): two parameters that pass the test become the region,
     * any other count selects the whole grid. The bottom margin must also
     * lie on the grid (see `Tty.SetMarginsAsWritten` for the test as the
     * source writes it).
     */
    method SetMargins()
      requires Tty.Valid(Term()) && cmdParamsSize <= cmdParams.Length
      modifies this
      ensures Term() == Tty.SetMargins(old(Term()), old(Params()))
      ensures Others() == old(Others())
    {
      if cmdParamsSize == 2 {
        var start := AsInt32(cmdParams[0]);
        var end := AsInt32(cmdParams[1]);
        if start > 0 && end > 0 && end - start >= 2 && end <= rows {
          regionStart := start - 1;
          regionEnd := end - 1;
        }
      } else {
        regionStart := 0;
        regionEnd := rows - 1;
      }
    }

    /** One ordinary SGR parameter, read as an `int`. */
    method SgrParameter(param: u32)
      modifies this
      ensures Term() == old(Term()).(attrs := Tty.SgrParam(old(Term()).attrs, param))
      ensures Others() == old(Others())
    {
      var p := AsInt32(param);
      if p == 0 {
        ResetAttrib();
      } else if p == 1 {
        fg := Or8(fg, 8);
      } else if p == 2 {
        fg := And8(fg, 7);
      } else if p == 3 || p == 7 {
        inverse := true;
      } else if p == 27 {
        inverse := false;
      } else if 30 <= p <= 37 {
        fg := Or8(And8(fg, 8), p - 30);
      } else if p == 39 {
        fg := 15;
      } else if 40 <= p <= 47 {
        SetBg(p - 40);
      } else if p == 49 {
        SetBg(7);
      }
    }

    /**
     * SGR (`m`): no parameters reset the attributes; otherwise the
     * parameters are walked left to right, `38;5;N` and `48;5;N` taking
     * three slots.
     */
    method SelectGraphicRendition()
      requires cmdParamsSize <= cmdParams.Length
      modifies this
      ensures Term() == old(Term()).(attrs := Tty.Sgr(old(Term()).attrs, old(Params())))
      ensures Others() == old(Others())
    {
      if cmdParamsSize == 0 {
        ResetAttrib();
        return;
      }
      ghost var t := Term();
      ghost var ps := Params();
      var i := 0;
      while i < cmdParamsSize
        invariant cmdParamsSize <= cmdParams.Length && i <= cmdParamsSize && ps == Params()
        invariant Term() == t.(attrs := Tty.Attrs(fg, bg, inverse)) && Others() == old(Others())
        invariant Tty.SgrFrom(Tty.Attrs(fg, bg, inverse), ps, i) == Tty.SgrFrom(t.attrs, ps, 0)
      {
        i := SgrSlot(i);
      }
    }

    /** One turn of the SGR loop from slot `i`: a 256-colour triple or one ordinary parameter; returns the next slot. */
    method SgrSlot(i: nat) returns (next': nat)
      requires cmdParamsSize <= cmdParams.Length && i < cmdParamsSize
      modifies this
      ensures Term() == old(Term()).(attrs := Tty.Attrs(fg, bg, inverse)) && Others() == old(Others())
      ensures (Tty.Attrs(fg, bg, inverse), next') == Tty.SgrStep(old(Tty.Attrs(fg, bg, inverse)), old(Params()), i)
    {
      var k := i;
      if k + 2 < cmdParamsSize && cmdParams[k] == 38 && cmdParams[k + 1] == 5 {
        k := k + 2;
        fg := cmdParams[k] % 256;
      } else if k + 2 < cmdParamsSize && cmdParams[k] == 48 && cmdParams[k + 1] == 5 {
        k := k + 2;
        bg := cmdParams[k] % 256;
      } else {
        SgrParameter(cmdParams[k]);
      }
      next' := k + 1;
    }

    /** ED (`J`): 0 clears from the cursor row down, 1 from the top to the cursor row, 2 homes the cursor and clears the screen. */
    method EraseInDisplay()
      requires Valid()
      modifies this, fb
      ensures Term() == Tty.EraseInDisplay(old(Term()), old(Params())).term && Others() == old(Others())
      ensures Pixels() == Display.Apply(old(Pixels()), Tty.EraseInDisplay(old(Term()), old(Params())).effect)
    {
      var mode := if cmdParamsSize >= 1 then cmdParams[0] else 0;
      if mode == 0 {
        ClearLines(cursorRow, rows - 1);
      } else if mode == 1 {
        ClearLines(0, cursorRow);
      } else if mode == 2 {
        MoveCursor(0, 0);
        Clear();
      }
    }

    /** EL (`K`): 0 or nothing clears to the end of the line, 1 to the cursor, 2 the whole line; more parameters do nothing. */
    method EraseInLine()
      requires Valid()
      modifies this, fb
      ensures Term() == old(Term()) && Others() == old(Others())
      ensures Pixels() == Display.Apply(old(Pixels()), Tty.EraseInLine(old(Term()), old(Params())))
    {
      if cmdParamsSize == 0 {
        ClearTillEnd();
      } else if cmdParamsSize == 1 {
        if cmdParams[0] == 0 {
          ClearTillEnd();
        } else if cmdParams[0] == 1 {
          ClearTillCursor();
        } else if cmdParams[0] == 2 {
          ClearLine();
        }
      }
    }

    /** IL (`L`): inside the scrolling region, the lines from the cursor row down move down by the count. */
    method InsertLines()
      requires Valid()
      modifies fb
      ensures Pixels() == Display.Apply(old(Pixels()), Tty.InsertLines(Term(), Params()))
    {
      if regionStart <= cursorRow <= regionEnd {
        var n := Min(if cmdParamsSize > 0 then cmdParams[0] else 1, regionEnd - cursorRow);
        Tty.GridLinesOnArea(Term(), cursorRow, regionEnd);
        assert Tty.InsertLines(Term(), Params()) == Tty.ScrollDownLines(Term(), cursorRow, regionEnd, n);
        ScrollDown(cursorRow, regionEnd, n);
      } else {
        assert Tty.InsertLines(Term(), Params()) == Tty.Effect.NoEffect;
      }
    }

    /** DL (`M`): inside the scrolling region, the lines below the cursor row move up by the count. */
    method DeleteLines()
      requires Valid()
      modifies fb
      ensures Pixels() == Display.Apply(old(Pixels()), Tty.DeleteLines(Term(), Params()))
    {
      if regionStart <= cursorRow <= regionEnd {
        var n := Min(if cmdParamsSize > 0 then cmdParams[0] else 1, regionEnd - cursorRow);
        Tty.GridLinesOnArea(Term(), cursorRow, regionEnd);
        assert Tty.DeleteLines(Term(), Params()) == Tty.ScrollUpLines(Term(), cursorRow, regionEnd, n);
        ScrollUp(cursorRow, regionEnd, n);
      } else {
        assert Tty.DeleteLines(Term(), Params()) == Tty.Effect.NoEffect;
      }
    }

    /** `uart_write`: the first `n` bytes of `buf` go to the host. */
    method UartWrite(buf: array<byte>, n: nat)
      requires n <= buf.Length
      modifies this
      ensures output == old(output) + buf[..n]
      ensures Term() == old(Term()) && next == old(next) && cmdParamsSize == old(cmdParamsSize) && privateMode == old(privateMode)
    {
      output := output + buf[..n];
    }

    /** DA (`c`): without a parameter or with 0, the terminal answers that it is a VT100 without options. */
    method AttributesReport()
      requires cmdParamsSize <= cmdParams.Length
      modifies this
      ensures output == old(output) + Tty.AttributesReport(old(Params()))
      ensures Term() == old(Term()) && next == old(next) && cmdParamsSize == old(cmdParamsSize) && privateMode == old(privateMode)
    {
      if cmdParamsSize == 0 || cmdParams[0] == 0 {
        var buf := new byte[7];
        buf[0] := ESC;
        buf[1] := '[' as int;
        buf[2] := '?' as int;
        buf[3] := '1' as int;
        buf[4] := ';' as int;
        buf[5] := '0' as int;
        buf[6] := 'c' as int;
        assert buf[..] == Tty.DeviceAttributes;
        UartWrite(buf, 7);
      }
    }

    /** DSR (`n`): 5 is answered with "ready", 6 with the cursor position; anything else is ignored. */
    method StatusReport()
      requires cmdParamsSize <= cmdParams.Length
      modifies this
      ensures output == old(output) + Tty.StatusReport(old(Term()), old(Params()))
      ensures Term() == old(Term()) && next == old(next) && cmdParamsSize == old(cmdParamsSize) && privateMode == old(privateMode)
    {
      var buf := new byte[20];
      if cmdParamsSize == 1 {
        if cmdParams[0] == 5 {
          buf[0] := ESC;
          buf[1] := '[' as int;
          buf[2] := '0' as int;
          buf[3] := 'n' as int;
          assert buf[..4] == Tty.StatusOk;
          UartWrite(buf, 4);
        } else if cmdParams[0] == 6 {
          WriteCursorReport(buf, ((cursorRow % 256) + 1) % 256, ((cursorColumn % 256) + 1) % 256);
          assert buf[..10] == Tty.CursorReport(Term());
          UartWrite(buf, 10);
        }
      }
    }


    /** The final letters that move the cursor: `A` to `D`, `f`, `H`, `s` and `u`. */
    method CursorCommand(ch: byte)
      requires Tty.Valid(Term()) && cmdParamsSize <= cmdParams.Length && ch in Tty.CURSOR_LETTERS
      modifies this
      ensures Term() == Tty.Final(old(Term()), ch, old(Params()), old(privateMode)).term
      ensures Pixels() == Display.Apply(old(Pixels()), Tty.Final(old(Term()), ch, old(Params()), old(privateMode)).effect)
      ensures output == old(output) + Tty.Final(old(Term()), ch, old(Params()), old(privateMode)).reply
      ensures next == old(next) && cmdParamsSize == old(cmdParamsSize) && privateMode == old(privateMode)
    {
      ghost var t, ps := Term(), Params();
      ghost var o := Tty.Final(t, ch, ps, privateMode);
      assert o.effect == Tty.Effect.NoEffect && o.reply == [];
      assert Display.Apply(Pixels(), o.effect) == Pixels() && output + o.reply == output;
      if ch == 'A' as int || ch == 'B' as int || ch == 'C' as int || ch == 'D' as int {
        CursorMotion(ch);
      } else if ch == 'f' as int || ch == 'H' as int {
        CursorPosition();
      } else if ch == 's' as int {
        SaveCursor();
      } else {
        RestoreCursor();
      }
    }

    /** The final letters that change settings (`h`, `l`, `m`, `r`), and those that do nothing. */
    method SettingCommand(ch: byte)
      requires Tty.Valid(Term()) && cmdParamsSize <= cmdParams.Length
      requires ch !in Tty.CURSOR_LETTERS && ch !in Tty.EDIT_LETTERS && ch !in Tty.REPORT_LETTERS
      modifies this
      ensures Term() == Tty.Final(old(Term()), ch, old(Params()), old(privateMode)).term
      ensures Pixels() == Display.Apply(old(Pixels()), Tty.Final(old(Term()), ch, old(Params()), old(privateMode)).effect)
      ensures output == old(output) + Tty.Final(old(Term()), ch, old(Params()), old(privateMode)).reply
      ensures next == old(next) && cmdParamsSize == old(cmdParamsSize) && privateMode == old(privateMode)
    {
      Tty.FinalGroups(Term(), ch, Params(), privateMode);
      if ch == 'h' as int || ch == 'l' as int {
        SetMode(ch == 'h' as int);
      } else if ch == 'm' as int {
        SelectGraphicRendition();
      } else if ch == 'r' as int {
        SetMargins();
      }
    }

    /** The final letters that draw: `J`, `K`, `L` and `M`. */
    method EditCommand(ch: byte)
      requires Valid() && ch in Tty.EDIT_LETTERS
      modifies this, fb
      ensures Term() == Tty.Final(old(Term()), ch, old(Params()), old(privateMode)).term
      ensures Pixels() == Display.Apply(old(Pixels()), Tty.Final(old(Term()), ch, old(Params()), old(privateMode)).effect)
      ensures output == old(output) + Tty.Final(old(Term()), ch, old(Params()), old(privateMode)).reply
      ensures next == old(next) && cmdParamsSize == old(cmdParamsSize) && privateMode == old(privateMode)
    {
      ghost var t, ps := Term(), Params();
      ghost var o := Tty.Final(t, ch, ps, privateMode);
      if ch == 'J' as int {
        assert o == Tty.EraseInDisplay(t, ps);
        EraseInDisplay();
      } else if ch == 'K' as int {
        assert o == Tty.Outcome(t, Tty.EraseInLine(t, ps), []);
        EraseInLine();
      } else if ch == 'L' as int {
        assert o == Tty.Outcome(t, Tty.InsertLines(t, ps), []);
        InsertLines();
      } else {
        assert o == Tty.Outcome(t, Tty.DeleteLines(t, ps), []);
        DeleteLines();
      }
    }

    /** The final letters that answer the host: `c` and `n`. */
    method ReportCommand(ch: byte)
      requires Tty.Valid(Term()) && cmdParamsSize <= cmdParams.Length && ch in Tty.REPORT_LETTERS
      modifies this
      ensures Term() == Tty.Final(old(Term()), ch, old(Params()), old(privateMode)).term
      ensures Pixels() == Display.Apply(old(Pixels()), Tty.Final(old(Term()), ch, old(Params()), old(privateMode)).effect)
      ensures output == old(output) + Tty.Final(old(Term()), ch, old(Params()), old(privateMode)).reply
      ensures next == old(next) && cmdParamsSize == old(cmdParamsSize) && privateMode == old(privateMode)
    {
      Tty.FinalGroups(Term(), ch, Params(), privateMode);
      if ch == 'c' as int {
        AttributesReport();
      } else {
        StatusReport();
      }
    }

    /** The `switch` of `state_fun_final_letter`: the command the final letter names, with the parameters collected. */
    method Command(ch: byte)
      requires Valid()
      modifies this, fb
      ensures Term() == Tty.Final(old(Term()), ch, old(Params()), old(privateMode)).term
      ensures Pixels() == Display.Apply(old(Pixels()), Tty.Final(old(Term()), ch, old(Params()), old(privateMode)).effect)
      ensures output == old(output) + Tty.Final(old(Term()), ch, old(Params()), old(privateMode)).reply
      ensures next == old(next) && cmdParamsSize == old(cmdParamsSize) && privateMode == old(privateMode)
    {
      if ch in Tty.EDIT_LETTERS {
        EditCommand(ch);
      } else if ch in Tty.REPORT_LETTERS {
        ReportCommand(ch);
      } else if ch in Tty.CURSOR_LETTERS {
        CursorCommand(ch);
      } else {
        SettingCommand(ch);
      }
    }

    /**
     * `state_fun_final_letter`: the command carried out, then the count
     * cleared and the scanner back to normal text.
     */
    method StateFinalLetter(ch: byte)
      requires Valid()
      modifies this, fb
      ensures State() == Display.Perform(old(State()).(scan := old(Scan()).(size := 0, next := NormalText)),
                                         Tty.Final(old(Term()), ch, old(Params()), old(privateMode)))
    {
      Command(ch);
      cmdParamsSize := 0;
      next := NormalText;
    }

    /** `ESC c`: default attributes, cursor home, screen cleared. */
    method ResetTerminal()
      requires Valid()
      modifies this, fb
      ensures Term() == Tty.ResetTerminal(old(Term())).term && Others() == old(Others())
      ensures Pixels() == Display.Apply(old(Pixels()), Tty.ResetTerminal(old(Term())).effect)
    {
      ResetAttrib();
      MoveCursor(0, 0);
      Clear();
    }

    // -------------------------------------------------------------------
    // The scanner: one method per state function

    /** `state_fun_normaltext`: ESC starts a sequence, every other byte is drawn. */
    method StateNormalText(ch: byte)
      requires Valid() && next == NormalText
      modifies this, fb
      ensures State() == Display.ScanStep(old(State()), glyph, ch)
    {
      if ch == ESC {
        next := WaitSquareBracket;
        return;
      }
      Putc(ch);
    }

    /** `state_fun_double`: the byte after `ESC #` is ignored. */
    method StateDouble(ch: byte)
      requires Valid() && next == Double
      modifies this
      ensures State() == Display.ScanStep(old(State()), glyph, ch)
    {
      next := NormalText;
    }

    /**
     * `state_fun_waitsquarebracket`: the byte after ESC. `[` opens a control
     * sequence, `#` a line attribute, a second ESC is drawn, `c` resets the
     * terminal; anything else ends the sequence.
     */
    method StateWaitSquareBracket(ch: byte)
      requires Valid() && next == WaitSquareBracket
      modifies this, fb, cmdParams
      ensures State() == Display.ScanStep(old(State()), glyph, ch)
    {
      if ch == '[' as int {
        cmdParams[0] := 1;
        privateMode := 0;
        next := SelectEscape;
        return;
      } else if ch == '#' as int {
        next := Double;
        return;
      } else if ch == ESC {
        Putc(ch);
      } else if ch == 'c' as int {
        ResetTerminal();
      }
      next := NormalText;
    }

    /**
     * `state_fun_selectescape`: the byte after `ESC [`. A digit starts the
     * first parameter, `?` or `#` is kept as the private marker before it;
     * any other byte is the final letter of a sequence without parameters.
     */
    method StateSelectEscape(ch: byte)
      requires Valid() && next == SelectEscape
      modifies this, fb, cmdParams
      ensures State() == Display.ScanStep(old(State()), glyph, ch)
    {
      if '0' as int <= ch <= '9' as int || ch == '?' as int || ch == '#' as int {
        FirstParameter(ch);
        return;
      }
      assert Display.ScanStep(State(), glyph, ch)
        == Display.Perform(State().(scan := Scan().(size := 0, next := NormalText)), Tty.Final(Term(), ch, Params(), privateMode));
      StateFinalLetter(ch);
    }

    /** The first parameter of a sequence opened: the digit's value, or 0 after a private marker, which is kept. */
    method FirstParameter(ch: byte)
      requires Valid() && next == SelectEscape && ('0' as int <= ch <= '9' as int || ch == '?' as int || ch == '#' as int)
      modifies this`cmdParamsSize, this`next, this`privateMode, cmdParams
      ensures Scan() == Advance(old(Scan()), ch).0 && Advance(old(Scan()), ch).1 == Nothing
      ensures Term() == old(Term()) && output == old(output)
    {
      ghost var s := Scan();
      if '0' as int <= ch <= '9' as int {
        cmdParamsSize := 1;
        cmdParams[0] := ch - '0' as int;
        next := ReadDigit;
        assert Scan() == s.(size := 1, params := s.params[0 := DigitValue(ch)], next := ReadDigit);
      } else {
        privateMode := ch;
        cmdParamsSize := 1;
        cmdParams[0] := 0;
        next := ReadDigit;
        assert Scan() == s.(privateMode := ch, size := 1, params := s.params[0 := 0], next := ReadDigit);
      }
    }

    /**
     * `state_fun_read_digit`: a digit extends the last parameter (in 32-bit
     * unsigned arithmetic), `;` opens the next one while there is a slot
     * for it, any other byte is the final letter.
     */
    method StateReadDigit(ch: byte)
      requires Valid() && next == ReadDigit
      modifies this, fb, cmdParams
      ensures State() == Display.ScanStep(old(State()), glyph, ch)
    {
      if '0' as int <= ch <= '9' as int {
        AccumulateDigit(ch);
        return;
      }
      if ch == ';' as int {
        NextParameter();
        return;
      }
      assert Display.ScanStep(State(), glyph, ch)
        == Display.Perform(State().(scan := Scan().(size := 0, next := NormalText)), Tty.Final(Term(), ch, Params(), privateMode));
      StateFinalLetter(ch);
    }

    /** A digit of a parameter: the current parameter times ten plus the digit, as an `unsigned int`. */
    method AccumulateDigit(ch: byte)
      requires Valid() && next == ReadDigit && '0' as int <= ch <= '9' as int
      modifies cmdParams
      ensures State() == Display.ScanStep(old(State()), glyph, ch)
    {
      cmdParams[cmdParamsSize - 1] := (cmdParams[cmdParamsSize - 1] * 10 + (ch - '0' as int)) % U32_MODULUS;
    }

    /** `;` in a parameter list: the next parameter starts at 0, unless all slots are taken. */
    method NextParameter()
      requires Valid() && next == ReadDigit
      modifies this`cmdParamsSize, cmdParams
      ensures State() == Display.ScanStep(old(State()), glyph, ';' as int)
    {
      if cmdParamsSize < MAX_PARAMS {
        cmdParamsSize := cmdParamsSize + 1;
        cmdParams[cmdParamsSize - 1] := 0;
      }
    }

    /** `state->next(ch, state)`: the byte goes to the current state function. */
    method Step(ch: byte)
      requires Valid()
      modifies this, fb, cmdParams
      ensures State() == Display.ScanStep(old(State()), glyph, ch)
    {
      match next
      case NormalText => StateNormalText(ch);
      case WaitSquareBracket => StateWaitSquareBracket(ch);
      case SelectEscape => StateSelectEscape(ch);
      case ReadDigit => StateReadDigit(ch);
      case Double => StateDouble(ch);
    }

    // -------------------------------------------------------------------
    // gfx_term_putstring

    /**
     * `handle_autoscroll`: the row before the cursor is computed as an
     * `unsigned int`; when it lies in the scrolling region and the cursor
     * has reached the region's last row, the cursor goes to the row above
     * it and the region scrolls up one line, otherwise the row is clamped.
     */
    method HandleAutoscroll()
      requires Tty.Valid(Term().(row := 0)) && cursorRow <= rows
      modifies this`cursorRow, fb
      ensures Term() == Tty.Autoscroll(old(Term())).term
      ensures Pixels() == Display.Apply(old(Pixels()), Tty.Autoscroll(old(Term())).effect)
    {
      ghost var t := Term();
      var previousRow := Decrement(cursorRow);
      if previousRow >= regionStart && previousRow <= regionEnd && cursorRow >= regionEnd {
        AutoscrollScrolls(t);
        ScrollRegion();
      } else {
        AutoscrollClamps(t);
        assert Display.Apply(Pixels(), Tty.Effect.NoEffect) == Pixels();
        PlaceRow(Min(rows - 1, cursorRow));
        assert Term() == t.(row := Min(t.rows - 1, t.row));
      }
    }

    /**
     * The scrolling branch of `handle_autoscroll`: the cursor on the row
     * above the region's last, and the region up one text row (the source
     * moves the cursor first; the scroll does not read it).
     */
    method ScrollRegion()
      requires Tty.LinesOnArea(Term(), regionStart, regionEnd) && regionEnd >= 1
      modifies this`cursorRow, fb
      ensures Term() == old(Term()).(row := old(regionEnd) - 1)
      ensures Pixels() == Display.Apply(old(Pixels()), Tty.ScrollUpLines(old(Term()), regionStart, regionEnd, 1))
    {
      ScrollUp(regionStart, regionEnd, 1);
      cursorRow := regionEnd - 1;
    }

    /**
     * The check at the end of every byte of `gfx_term_putstring`: past the
     * last column the cursor wraps to the next row or stays on the last
     * column, and the autoscroll rule follows.
     */
    method ColumnOverflow()
      requires Tty.Valid(Term().(col := 0)) && cursorColumn <= columns
      modifies this`cursorRow, this`cursorColumn, fb
      ensures Term() == Tty.ColumnOverflow(old(Term())).term
      ensures Pixels() == Display.Apply(old(Pixels()), Tty.ColumnOverflow(old(Term())).effect)
    {
      ghost var t := Term();
      if cursorColumn >= columns {
        if wraparound {
          OverflowWraps(t);
          PlaceCursor(cursorRow + 1, 0);
          assert Term() == t.(col := 0, row := t.row + 1);
        } else {
          OverflowStays(t);
          PlaceCursor(cursorRow, columns - 1);
          assert Term() == t.(col := t.columns - 1);
        }
        HandleAutoscroll();
      } else {
        assert Tty.ColumnOverflow(Term()) == Tty.Outcome(Term(), Tty.Effect.NoEffect, []);
      }
    }
    /** The control characters `gfx_term_putstring` handles itself. */
    method Control(ch: byte)
      requires Valid() && Display.IsControl(ch)
      modifies this`cursorRow, this`cursorColumn, fb
      ensures Term() == Display.Control(old(State()), glyph, ch).term
      ensures Pixels() == Display.Control(old(State()), glyph, ch).img
    {
      ghost var v := State();
      if ch == CR {
        assert Display.Control(v, glyph, ch) == v.(term := Tty.CarriageReturn(v.term));
        cursorColumn := 0;
      } else if ch == LF {
        assert Display.Control(v, glyph, ch) == Display.Perform(v, Tty.LineFeed(v.term));
        LineFeed();
      } else if ch == TAB {
        assert Display.Control(v, glyph, ch) == v.(term := Tty.Tab(v.term));
        cursorColumn := Min((cursorColumn / 8 + 1) * 8, columns - 1);
      } else if ch == BS {
        assert Display.Control(v, glyph, ch) == v.(term := Tty.Backspace(v.term));
        if cursorColumn > 0 {
          cursorColumn := cursorColumn - 1;
        }
      } else {
        assert Display.Control(v, glyph, ch) == v;
      }
    }

    /** `\n`: the cursor moves down a row, then the autoscroll rule. */
    method LineFeed()
      requires Tty.Valid(Term())
      modifies this`cursorRow, fb
      ensures Term() == Tty.LineFeed(old(Term())).term
      ensures Pixels() == Display.Apply(old(Pixels()), Tty.LineFeed(old(Term())).effect)
    {
      ghost var t := Term();
      RowBelow(t);
      LineFeedPlan(t);
      cursorRow := cursorRow + 1;
      assert Term() == t.(row := t.row + 1);
      HandleAutoscroll();
    }

    /**
     * One turn of the loop of `gfx_term_putstring`: a control character,
     * or the byte handed to the scanner; then the column check.
     */
    method Feed(ch: byte)
      requires Valid()
      modifies this, fb, cmdParams
      ensures Valid() && State() == Display.Feed(old(State()), glyph, ch)
    {
      if Display.IsControl(ch) {
        Control(ch);
      } else {
        Step(ch);
      }
      ColumnOverflow();
    }
    // -------------------------------------------------------------------
    // The entry point

    /**
     * `gfx_term_putstring`: the first `length` bytes of `str`, or the bytes
     * before its first NUL when `length` is 0. The cell under the cursor is
     * put back first and saved again at the end.
     */
    method PutString(str: seq<byte>, length: nat)
      requires Valid()
      requires if length == 0 then 0 in str else length <= |str|
      modifies this, fb, cmdParams, cursorBuffer
      ensures Valid()
      ensures State() == Display.PutString(old(State()), glyph, str[..if length == 0 then Display.StrLen(str) else length])
    {
      var n := length;
      if n == 0 {
        n := Display.StrLen(str);
      }
      RestoreCursorContent();
      ghost var v := State();
      var i := 0;
      while i < n
        invariant i <= n && Valid()
        invariant State() == Display.FeedAll(v, glyph, str[..i])
      {
        assert str[..i + 1][..i] == str[..i];
        Feed(str[i]);
        i := i + 1;
      }
      SaveCursorContent();
    }

    // -------------------------------------------------------------------
    // Geometry

    /**
     * `gfx_set_screen_geometry`: the old active area cleared, then border,
     * active height and rows recomputed for the font and line limit, and
     * the cursor home.
     */
    method SetScreenGeometry()
      requires SupportedFontHeight(fontHeight) && fontHeight <= fb.Length0 && 2 * border + height == fb.Length0
      modifies this`border, this`height, this`rows, this`cursorRow, this`cursorColumn, fb
      ensures Term() == Tty.SetScreenGeometry(old(Term())).term
      ensures Pixels() == Display.Apply(old(Pixels()), Tty.SetScreenGeometry(old(Term())).effect)
    {
      ghost var t := Term();
      var g := ScreenLayout(fb.Length0, fontHeight, lineLimit);
      assert Tty.SetScreenGeometry(t).effect == Tty.Effect.FillLines(border, border + height, if inverse then fg else bg);
      FillPixelRows(border, border + height, if inverse then fg else bg);
      Relayout(g);
    }

    /** The cursor moved to row `row`, same column. */
    method PlaceRow(row: nat)
      modifies this`cursorRow
      ensures Term() == old(Term()).(row := row)
    {
      cursorRow := row;
    }

    /** The cursor moved to `row`, `col`. */
    method PlaceCursor(row: nat, col: nat)
      modifies this`cursorRow, this`cursorColumn
      ensures Term() == old(Term()).(row := row, col := col)
    {
      cursorRow, cursorColumn := row, col;
    }

    /** The active area and grid of layout `g`, cursor home. */
    method Relayout(g: Layout)
      modifies this`border, this`height, this`rows, this`cursorRow, this`cursorColumn
      ensures Term() == old(Term()).(border := g.border, height := g.height, rows := g.rows, row := 0, col := 0)
    {
      border, height, rows := g.border, g.height, g.rows;
      cursorRow, cursorColumn := 0, 0;
    }

    /**
     * `gfx_set_font_height` as the source writes it: the new glyph height
     * and width, the line limit reduced to what fits, and the screen
     * geometry recomputed.
     */
    method SetFontHeightAsWritten(h: nat)
      requires Tty.Valid(Term()) && SupportedFontHeight(h)
      modifies this`fontHeight, this`fontWidth, this`lineLimit, this`border, this`height, this`rows
      modifies this`cursorRow, this`cursorColumn, fb
      ensures Term() == Tty.SetFontHeightAsWritten(old(Term()), h).term
      ensures Pixels() == Display.Apply(old(Pixels()), Tty.SetFontHeightAsWritten(old(Term()), h).effect)
    {
      FontFits(Term(), h);
      SelectFont(h);
      SetScreenGeometry();
    }

    /** The first half of `gfx_set_font_height`: glyph height and width, and the line limit cut to what fits. */
    method SelectFont(h: nat)
      requires h > 0
      modifies this`fontHeight, this`fontWidth, this`lineLimit
      ensures Term() == old(Term()).(fontHeight := h, fontWidth := FontWidth(h), lineLimit := ClampLineLimit(old(lineLimit), fb.Length0, h))
    {
      fontHeight := h;
      fontWidth := if h == 20 then 10 else 8;
      WholeLines(fb.Length0, h);
      lineLimit := Min(lineLimit, fb.Length0 / h);
    }

    /**
     * `gfx_set_font_height`, with the text grid brought in line with the new
     * font: after the geometry is recomputed, the column count follows the
     * glyph width, the scrolling region is the whole grid again and the
     * saved cursor is home, like the cursor.
     */
    method SetFontHeight(h: nat)
      requires Tty.Valid(Term()) && SupportedFontHeight(h)
      modifies this`fontHeight, this`fontWidth, this`lineLimit, this`border, this`height, this`rows, this`columns
      modifies this`cursorRow, this`cursorColumn, this`savedRow, this`savedColumn, this`regionStart, this`regionEnd, fb
      ensures Term() == Tty.SetFontHeight(old(Term()), h).term
      ensures Pixels() == Display.Apply(old(Pixels()), Tty.SetFontHeight(old(Term()), h).effect)
    {
      ghost var t := Term();
      FontPlan(t, h);
      SetFontHeightAsWritten(h);
      ResetGrid(width / fontWidth, rows - 1);
    }

    /** The fields `gfx_set_font_height` leaves stale, brought in line with the new font and rows. */
    method ResetGrid(columns': nat, last: nat)
      modifies this`columns, this`regionStart, this`regionEnd, this`savedRow, this`savedColumn
      ensures Term() == old(Term()).(columns := columns', regionStart := 0, regionEnd := last, savedRow := 0, savedCol := 0)
    {
      columns := columns';
      regionStart, regionEnd := 0, last;
      savedRow, savedColumn := 0, 0;
    }

    /** `gfx_toggle_font_height`: the next height of the cycle 8, 14, 16, 20. */
    method ToggleFontHeight()
      requires Valid()
      modifies this`fontHeight, this`fontWidth, this`lineLimit, this`border, this`height, this`rows, this`columns
      modifies this`cursorRow, this`cursorColumn, this`savedRow, this`savedColumn, this`regionStart, this`regionEnd, fb
      ensures Term() == Tty.ToggleFontHeight(old(Term())).term
      ensures Pixels() == Display.Apply(old(Pixels()), Tty.ToggleFontHeight(old(Term())).effect)
    {
      if fontHeight == 8 {
        SetFontHeight(14);
      } else if fontHeight == 14 {
        SetFontHeight(16);
      } else if fontHeight == 16 {
        SetFontHeight(20);
      } else {
        SetFontHeight(8);
      }
    }

  }

  /** Every supported font fits the frame buffer of a valid terminal. */
  lemma FontFits(t: Tty.Term, h: nat)
    requires Tty.Valid(t) && SupportedFontHeight(h)
    ensures h <= t.fullHeight
  {
  }

  /** The corrected font change is the change as written, then the grid fields reset. */
  lemma FontPlan(t: Tty.Term, h: nat)
    requires Tty.Valid(t) && SupportedFontHeight(h)
    ensures var o := Tty.SetFontHeightAsWritten(t, h);
      && o.term.rows >= 1 && o.term.fontWidth == FontWidth(h)
      && Tty.SetFontHeight(t, h).effect == o.effect
      && Tty.SetFontHeight(t, h).term
           == o.term.(columns := t.width / FontWidth(h), regionStart := 0, regionEnd := o.term.rows - 1, savedRow := 0, savedCol := 0)
  {
  }

  /** A line feed is the autoscroll rule applied one row down. */
  lemma LineFeedPlan(t: Tty.Term)
    requires Tty.Valid(t)
    ensures Tty.LineFeed(t) == Tty.Autoscroll(t.(row := t.row + 1))
  {
  }

  /** Any row of the grid, and the row just below it, may be handed to the autoscroll rule. */
  lemma RowBelow(t: Tty.Term)
    requires Tty.Valid(t)
    ensures Tty.Valid(t.(row := 0)) && t.row + 1 <= t.rows
  {
  }

  /** The two cases of `handle_autoscroll`, told apart by the 32-bit row before the cursor. */
  lemma AutoscrollScrolls(t: Tty.Term)
    requires Tty.Valid(t.(row := 0)) && t.row <= t.rows
    requires t.regionStart <= Decrement(t.row) <= t.regionEnd && t.row >= t.regionEnd
    ensures Tty.LinesOnArea(t, t.regionStart, t.regionEnd)
    ensures Tty.Autoscroll(t) == Tty.Outcome(t.(row := t.regionEnd - 1), Tty.ScrollUpLines(t, t.regionStart, t.regionEnd, 1), [])
  {
    Tty.GridLinesOnArea(t, t.regionStart, t.regionEnd);
  }

  /** Otherwise the row is clamped to the grid and nothing is drawn. */
  lemma AutoscrollClamps(t: Tty.Term)
    requires Tty.Valid(t.(row := 0)) && t.row <= t.rows
    requires !(t.regionStart <= Decrement(t.row) <= t.regionEnd && t.row >= t.regionEnd)
    ensures t.rows >= 1
    ensures Tty.Autoscroll(t) == Tty.Outcome(t.(row := Min(t.rows - 1, t.row)), Tty.Effect.NoEffect, [])
  {
  }

  /** Past the last column with wraparound on: the cursor goes to column 0 of the next row, then the autoscroll rule. */
  lemma OverflowWraps(t: Tty.Term)
    requires Tty.Valid(t.(col := 0)) && t.col == t.columns && t.wraparound
    ensures Tty.Valid(t.(col := 0, row := 0)) && t.row + 1 <= t.rows
    ensures Tty.ColumnOverflow(t) == Tty.Autoscroll(t.(col := 0, row := t.row + 1))
  {
    WrapStaysValid(t);
    WrapOutcome(t);
  }

  lemma WrapStaysValid(t: Tty.Term)
    requires Tty.Valid(t.(col := 0)) && t.col == t.columns
    ensures Tty.Valid(t.(col := 0, row := 0)) && t.row + 1 <= t.rows
  {
  }

  lemma WrapOutcome(t: Tty.Term)
    requires Tty.Valid(t.(col := 0)) && Tty.Valid(t.(col := 0, row := 0))
    requires t.col == t.columns && t.wraparound && t.row + 1 <= t.rows
    ensures Tty.ColumnOverflow(t) == Tty.Autoscroll(t.(col := 0, row := t.row + 1))
  {
    var u := t.(col := 0, row := t.row + 1);
    assert u.(row := 0) == t.(col := 0, row := 0);
  }

  /** Past the last column with wraparound off: the cursor goes back to the last column, then the autoscroll rule. */
  lemma OverflowStays(t: Tty.Term)
    requires Tty.Valid(t.(col := 0)) && t.col == t.columns && !t.wraparound
    ensures Tty.Valid(t.(col := t.columns - 1, row := 0)) && t.row <= t.rows
    ensures Tty.ColumnOverflow(t) == Tty.Autoscroll(t.(col := t.columns - 1))
  {
  }

  /** The rectangle `gfx_term_clear_lines` clears for a range that is not empty. */
  lemma ClearLinesBox(t: Tty.Term, from: int, to: int, lo: nat, hi: nat)
    requires Tty.Valid(t) && lo == Max(from, 0) && hi == Min(to, t.rows - 1) && lo <= hi
    ensures lo * t.fontHeight + (hi - lo + 1) * t.fontHeight < U32_MODULUS
    ensures Tty.ClearLines(t, from, to) == Tty.ClearRect(t, 0, lo * t.fontHeight, t.width, (hi - lo + 1) * t.fontHeight)
  {
    Tty.LinesInside(t, lo, hi);
  }

  /** The pixel offsets of text rows that `gfx_scroll_up` and `gfx_scroll_down` compute. */
  lemma LineOffsets(border: nat, fh: nat, start: nat, end: nat, lines: nat)
    requires start + lines <= end + 1
    ensures border + (lines + start) * fh == border + start * fh + lines * fh
    ensures (end - start - lines + 1) * fh == (border + (end + 1) * fh) - (border + start * fh) - lines * fh
    ensures border + (end - lines + 1) * fh == border + (end + 1) * fh - lines * fh
  {
    assert (lines + start) * fh == start * fh + lines * fh;
    assert (end + 1) * fh == (end - start - lines + 1) * fh + (lines + start) * fh;
    assert (end + 1) * fh == (end - lines + 1) * fh + lines * fh;
  }

  /** `gfx_scroll_down` as one block scroll: the rows of the range move down by the cut count. */
  lemma ScrollDownPlan(img: Image, t: Tty.Term, start: nat, end: nat, lines: nat, lo: int, hi: int, k: int)
    requires Tty.LinesOnArea(t, start, end) && |img| == t.fullHeight
    requires lo == t.border + start * t.fontHeight && hi == t.border + (end + 1) * t.fontHeight
    requires k == Min(lines, end - start) * t.fontHeight
    ensures 0 <= lo && 0 <= k && lo + k <= hi <= |img|
    ensures Display.Apply(img, Tty.ScrollDownLines(t, start, end, lines))
         == ScrollDownRows(img, lo, hi, k, Tty.EffectiveBg(t.attrs))
  {
    LineOffsets(t.border, t.fontHeight, start, end, Min(lines, end - start));
    MulLe(0, end - start - Min(lines, end - start) + 1, t.fontHeight);
  }

  /** `gfx_fill_rect` with its corner on the surface fills the box cut at the right and bottom edges. */
  lemma FillRectPlan(img: Image, t: Tty.Term, x: u32, y: u32, w: u32, h: u32, w': u32, h': u32)
    requires Tty.Valid(t) && x + w < U32_MODULUS && y + h < U32_MODULUS && |img| == t.fullHeight
    requires x < t.width && y < t.height
    requires w' == (if x + w > t.width then t.width - x else w)
    requires h' == (if y + h > t.height then t.height - y else h)
    ensures Tty.FillRect(t, x, y, w, h) == Tty.Effect.FillBox(t.border + y, x, h', w', Tty.EffectiveFg(t.attrs))
    ensures t.border + y + h' <= |img|
    ensures Display.Apply(img, Tty.FillRect(t, x, y, w, h))
         == FillArea(img, t.border + y, x, h', w', Tty.EffectiveFg(t.attrs))
  {
    assert ClipRect(x, y, w, h, t.width, t.height) == Some(Rect(x, y, w', h'));
  }

  /** The writes of the cursor-position report into `buf`: `ESC [ row ; column R`, each number as three digits. */
  method WriteCursorReport(buf: array<byte>, row: byte, col: byte)
    requires 10 <= buf.Length
    modifies buf
    ensures buf[..10] == [ESC, '[' as int] + ThreeDigits(row) + [';' as int] + ThreeDigits(col) + ['R' as int]
  {
    buf[0] := ESC;
    buf[1] := '[' as int;
    B2s(buf, 2, row);
    assert buf[..5] == [ESC, '[' as int] + ThreeDigits(row) by {
      assert buf[..5] == buf[..2] + buf[2..5];
    }
    buf[5] := ';' as int;
    assert buf[..6] == buf[..5] + [';' as int];
    ghost var head := buf[..6];
    B2s(buf, 6, col);
    assert buf[..6] == head;
    assert buf[..9] == head + ThreeDigits(col) by {
      assert buf[..9] == buf[..6] + buf[6..9];
    }
    buf[9] := 'R' as int;
    assert buf[..10] == buf[..9] + ['R' as int];
  }

  /** A move of no rows changes nothing. */
  lemma MoveNothing(img: Image, dst: nat, src: nat)
    requires src <= |img| && dst <= |img|
    ensures MoveRows(img, dst, src, 0) == img
  {
  }

  /**
   * `count` text rows of `h` pixel rows each, in pixel rows, counted one
   * text row at a time as the row loop of `gfx_scroll_down` steps.
   */
  function Span(count: nat, h: nat): nat
  {
    if count == 0 then 0 else Span(count - 1, h) + h
  }

  lemma {:induction false} SpanIsProduct(count: nat, h: nat)
    ensures Span(count, h) == count * h
  {
    if count > 0 {
      SpanIsProduct(count - 1, h);
      Shift(count - 1, 1, h);
    }
  }

  /**
   * The offsets `gfx_scroll_up` computes: the block moved up ends where the
   * fill begins, and the two together are the scroll `ScrollUpLines` means.
   */
  lemma ScrollUpPlan(img: Image, t: Tty.Term, start: nat, end: nat, lines: nat,
                     to: int, from: int, length: int, fillFrom: int, fillLength: int)
    requires Tty.LinesOnArea(t, start, end) && start + lines <= end + 1 && |img| == t.fullHeight
    requires to == t.border + start * t.fontHeight && from == t.border + (lines + start) * t.fontHeight
    requires length == (end - start - lines + 1) * t.fontHeight
    requires fillFrom == t.border + (end - lines + 1) * t.fontHeight && fillLength == lines * t.fontHeight
    ensures 0 <= to && 0 <= length && 0 <= fillLength
    ensures from == to + fillLength && to + length == fillFrom && fillFrom + fillLength <= t.fullHeight
    ensures Tty.ScrollUpLines(t, start, end, lines) == Tty.Effect.ScrollUp(to, fillFrom + fillLength, fillLength, Tty.EffectiveBg(t.attrs))
    ensures Display.Apply(img, Tty.ScrollUpLines(t, start, end, lines))
      == ScrollUpRows(img, to, fillFrom + fillLength, fillLength, Tty.EffectiveBg(t.attrs))
  {
    LineOffsets(t.border, t.fontHeight, start, end, lines);
    MulLe(0, end - start - lines + 1, t.fontHeight);
  }

  /** `d` more text rows are `d * fh` more pixel rows. */
  lemma Shift(a: int, d: int, fh: nat)
    ensures (a + d) * fh == a * fh + d * fh
  {
  }

  // ---------------------------------------------------------------------
  // The row counter of `gfx_scroll_down` as written

  const U32_MAX: u32 := 0xFFFF_FFFF

  /** `counter--` on an `unsigned int`. */
  function Decrement(c: u32): u32
  {
    if c == 0 then U32_MAX else c - 1
  }

  /** The `unsigned int` row counter of `gfx_scroll_down` after `steps` decrements from `first`. */
  function ScrollDownCounter(first: u32, steps: nat): (c: u32)
    ensures c == (first - steps) % U32_MODULUS
  {
    if steps == 0 then first else Decrement(ScrollDownCounter(first, steps - 1))
  }

  /**
   * With `start` at least 1 the loop moves rows `first` down to `start`
   * and its test fails exactly after `first - start + 1` steps.
   */
  lemma ScrollDownCounterStops(first: u32, start: u32)
    requires 1 <= start <= first
    ensures forall steps: nat | steps <= first - start :: ScrollDownCounter(first, steps) == first - steps >= start
    ensures ScrollDownCounter(first, first - start + 1) == start - 1 < start
  {
  }

  /**
   * With `start` 0 the test `counter >= 0` of an unsigned counter holds
   * at every step: after row 0 the counter wraps to 2^32 - 1 and the loop
   * goes on to move rows far outside the frame buffer.
   */
  lemma ScrollDownCounterWraps(first: u32)
    ensures forall steps: nat | steps <= first :: ScrollDownCounter(first, steps) == first - steps
    ensures ScrollDownCounter(first, first + 1) == U32_MAX
  {
  }

  /**
   * `ESC [ L` with the cursor on the top row of a region that starts at the
   * top of the screen calls `gfx_scroll_down` with `start` 0.
   */
  lemma InsertAtTopReachesZero(t: Tty.Term, ps: seq<u32>)
    requires Tty.Valid(t) && t.row == 0 && t.regionStart == 0
    ensures Tty.InsertLines(t, ps) == Tty.ScrollDownLines(t, 0, t.regionEnd, Min(if |ps| > 0 then ps[0] else 1, t.regionEnd))
  {
  }
}
