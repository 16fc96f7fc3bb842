# pigfx terminal core in Dafny

pigfx turns a Raspberry Pi into a serial terminal. `src/gfx.c` holds its
terminal emulator. Bytes arrive through `gfx_term_putstring`:

- the control characters CR, LF, TAB and BS move the cursor;
- every other byte goes through a small VT100/ANSI escape-sequence scanner;
- the scanner's final-letter step moves the cursor, sets colours, erases,
  inserts or deletes lines, sets the scrolling region, or answers the host.

Everything is drawn into a frame buffer of `full_height` pixel rows of
`pitch` bytes. Text occupies an active area between two borders, on a grid of
`rows` by `columns` glyph cells.

The model has seven modules:

- `Bytes`: bytes, 32-bit unsigned values and their `int` reading, and the bit
  operations the SGR code uses.
- `Geometry`:
  - the font cycle and the screen layout of `gfx_set_screen_geometry`;
  - `b2s`;
  - the clipping of `gfx_fill_rect`.
- `Image`: the frame buffer as a value (a sequence of pixel rows) and the
  meaning of fills, block moves, scrolls, and cell writes and reads.
- `Scanner`: the `state_fun_*` state machine, as a pure step function on a
  scanner state (mode, parameter slots, count, private-mode character).
- `Tty`: the terminal state (`ctx.term` and the geometry and colour fields of
  `ctx`) and the pure meaning of every operation on it. An operation that
  draws returns its drawing as an `Effect`.
- `Display`: the whole terminal as a value. `Feed` is one byte of
  `gfx_term_putstring` and `PutString` the whole call, including the save and
  restore of the cell under the cursor.
- `Terminal`: the class `Terminal`, which keeps the context the way the source
  does.
  - Its fields are updated in place, over an `array2<byte>` frame buffer, the
    `cmd_params` array and the `cursor_buffer` array.
  - Each method carries out its C function step by step. This includes the
    glyph and cell-copy loops, the bottom-up row loop of `gfx_scroll_down`,
    the SGR loop and the `putstring` loop.
  - Each method is proved to leave exactly the state the pure function gives.

## Model

| member | source | states |
|---|---|---|
| Bytes.AsInt32 | src/gfx.c:737-739 | Reading an `unsigned int` parameter as an `int` gives a value in the 32-bit signed range that is congruent to it modulo 2^32. A value below 2^31 is unchanged. |
| Bytes.BitsOfByte | src/gfx.c:856-865 | `fg \| 8` sets the bright bit (adds 8 unless it is set). `fg & 7` is `fg % 8`. `fg & 8` is the bright bit's value. |
| Bytes.OrLowBits | src/gfx.c:864-865 | OR-ing a colour number below 8 into a value that is 0 or 8 adds it. |
| Bytes.BitOr | src/gfx.c:856-857 | Bitwise or never gives less than either operand and never more than their sum. |
| Bytes.BitAnd | src/gfx.c:858-865 | Bitwise and never gives more than either operand. |
| Bytes.Or8 | src/gfx.c:856-857 | `a \| b` on bytes stays a byte, is at least either operand, and or-ing in 0 leaves `a` unchanged. |
| Bytes.And8 | src/gfx.c:858-865 | `a & b` on bytes is at most either operand. |
| Geometry.FontWidth | src/gfx.c:181 | The glyph width is 10 for the 20-pixel font and 8 otherwise. Every supported cell fits the 200-byte cursor buffer. |
| Geometry.ToggleCycle | src/gfx.c:141-152 | The toggle goes through 8, 14, 16 and 20 and returns to the start after exactly four steps. |
| Geometry.ClampLineLimit | src/gfx.c:198 | The new line limit is the smaller of the old limit and the number of whole glyph rows in the frame buffer. |
| Geometry.ScreenLayout | src/gfx.c:154-176 | The two borders and the active height add up to the full height. The rows fit in the active height. The line count is at most `full_height / font_height` and at most a positive line limit. |
| Geometry.LayoutLines | src/gfx.c:159-161 | The number of lines fits in the frame buffer and respects a positive line limit. |
| Geometry.LayoutBorder | src/gfx.c:162-164 | The two borders fit in the frame buffer. |
| Geometry.LimitedLayout | src/gfx.c:159-173 | With a line limit between 1 and the lines that fit, the grid has exactly that many rows and the border is half of what is left over. |
| Geometry.UnlimitedLayout | src/gfx.c:159-173 | Without a line limit the border is never 0. When the remainder is 0 or 1, the border becomes half a glyph and the grid loses one row. Otherwise the grid has every row that fits and the border is half the remainder. |
| Geometry.AtLeastTwoRows | src/gfx.c:154-176 | A frame buffer three glyphs high with a line limit other than 1 gets a grid of at least two rows. This is what a scrolling region needs. |
| Geometry.ThreeDigits | src/gfx.c:35-43 | Three ASCII decimal digits whose value is the byte. |
| Geometry.B2s | src/gfx.c:35-43 | Writes the three digits of the byte at the given position and no other byte of the buffer. |
| Geometry.ClipRect | src/gfx.c:376-393 | Nothing is filled exactly when the corner is off the surface. The corner is kept. Without 32-bit overflow, width and height are cut back to the surface. |
| Geometry.ClipIsIntersection | src/gfx.c:376-393 | A pixel lies in the clipped box exactly when it lies in the requested box and on the surface. |
| Image.ReadAfterWrite | src/gfx.c:506-521 | Reading a cell just written gives back the pixels written. |
| Image.WriteWhatWasRead | src/gfx.c:490-521 | Writing back a cell just read leaves the frame buffer unchanged. |
| Image.WriteCellIdempotent | src/gfx.c:459-483 | Writing the same cell twice is the same as writing it once. |
| Image.ScrollUpThenDown | src/gfx.c:289-353 | Scrolling a pixel range up and then down by the same amount restores every row except the top `k`, which come back in the fill colour. |
| Image.MoveRowsExtendAbove | src/gfx.c:330-338 | Moving rows down piece by piece, lowest first, composes into one block move. |
| Image.ScrollUpRows | src/gfx.c:289-321 | An upward scroll keeps the image's height and the pitch of every row. Where each row comes from is stated by `Image.ScrollUpRowsPlaces`. |
| Image.ScrollUpRowsPlaces | src/gfx.c:289-321 | Rows outside the range are unchanged. Row `i` of the range takes row `i + k`. The bottom `k` rows of the range hold the fill colour. |
| Image.ScrollDownRows | src/gfx.c:323-353 | A downward scroll keeps the image's height and the pitch of every row. Where each row comes from is stated by `Image.ScrollDownRowsPlaces`. |
| Image.ScrollDownRowsPlaces | src/gfx.c:323-353 | Rows outside the range are unchanged. Row `i` of the range below its top `k` takes row `i - k`. The top `k` rows hold the fill colour. |
| Image.WriteCell | src/gfx.c:475-480 | Drawing a cell keeps the image's shape. No pixel outside the cell's rows and columns changes. |
| Image.ReadCell | src/gfx.c:507-521 | Saving a cell packs its `h * w` pixels row after row. |
| Image.ReadCellAt | src/gfx.c:507-521 | Byte `y * w + x` of a cell read is the pixel at row `y`, column `x` of the cell. |
| Scanner.Advance | src/gfx.c:970-1064 | Every byte keeps the scanner well formed: at most 10 parameters, and at least one while digits are read. A completed sequence leaves normal text with a count of 0 and hands over at most 10 parameters. A `;` with all 10 slots in use is ignored. |
| Scanner.ScanAll | src/gfx.c:970-1064 | Running the scanner over a string keeps it well formed and yields exactly one action per byte. |
| Scanner.DispatchEndsInNormalText | src/gfx.c:964-967 | Whatever the final letter, recognised or not, the parameters written so far are handed over, the count goes back to 0 and the scanner to normal text. |
| Scanner.FinalLetter | src/gfx.c:964-967 | The command receives the final letter, the private-mode marker and exactly as many parameters as were opened, which are the leading slots in order (at most ten). A well-formed scanner stays well-formed and comes to rest in normal text. |
| Scanner.WaitSquareBracketExits | src/gfx.c:1031-1053 | After `ESC`: `[` opens a control sequence, `#` goes to the line-attribute state, and every other byte returns to normal text. `ESC ESC` draws an `ESC` glyph and `ESC c` resets the terminal. |
| Scanner.DoubleConsumesOne | src/gfx.c:1018-1029 | The line-attribute state swallows exactly one byte and returns to normal text. |
| Scanner.SelectEscapeStarts | src/gfx.c:993-1016 | A digit starts the first parameter with its value. `?` or `#` is recorded as the private-mode character and starts the first parameter at 0. Anything else is a final letter with no parameters. |
| Scanner.ReadDigitSteps | src/gfx.c:970-991 | A digit makes the last parameter `old*10 + digit` modulo 2^32 and leaves the other slots alone. A `;` with room opens a new parameter at 0 and keeps the earlier ones. Any other byte is the final letter. |
| Scanner.ScanAllConcat | src/gfx.c:568-620 | Scanning two strings one after the other is scanning their concatenation. |
| Scanner.AccumulateDecimal | src/gfx.c:970-979 | The decimal digits of a 32-bit value, read back by the digit rule, give the value. |
| Scanner.ScanDigits | src/gfx.c:970-979 | A run of digits only changes the last parameter, to the run's decimal value. |
| Scanner.ScanParams | src/gfx.c:970-987 | The encoded parameter list `p1;...;pn` leaves exactly those parameters in the slots, in order, and yields no action. |
| Scanner.ScanMoreParams | src/gfx.c:970-987 | The same, for a list of two or more parameters. |
| Scanner.ScanSeparator | src/gfx.c:981-987 | A `;` with room opens a zero slot and yields no action. |
| Scanner.ScanFromSelectEscape | src/gfx.c:970-1016 | After `ESC [`, the parameters and a final letter hand exactly those parameters to the final letter and end in normal text. |
| Scanner.ControlSequenceRoundTrip | src/gfx.c:970-1064 | Round trip: from normal text, `ESC [ p1;...;pn F` dispatches `F` with exactly `p1..pn` and no private-mode character, and ends in normal text with a count of 0. |
| Scanner.PrivateSequenceRoundTrip | src/gfx.c:970-1064 | The same round trip for `ESC [ ? p1;...;pn F`, which dispatches with private-mode character `?`. |
| Scanner.ScanPrivateOpening | src/gfx.c:993-1040 | `ESC [ ?` leaves the scanner reading a first parameter of 0 with `?` recorded. |
| Scanner.ScanFinalAfterParams | src/gfx.c:970-991 | From the first parameter slot, parameters and a final letter dispatch exactly those parameters. |
| Scanner.OpenSequence | src/gfx.c:970-1064 | `ESC [ p1;...;pn` without a final letter leaves the scanner reading digits, holding exactly `p1..pn`. |
| Scanner.SemicolonAsWritten | src/gfx.c:981-987 | The `;` step as written: the count goes up by one and the slot zeroed is the one just below the new count, with no check against the capacity. |
| Scanner.SemicolonOverflow | src/gfx.c:981-987 | Ten parameters fill the slots, and the `;` step as written would then write slot 10, past the end. The model ignores that `;` instead. |
| Tty.MoveCursor | src/gfx.c:643-648 | The cursor lands on the grid, each coordinate clamped, with negative values going to 0. Nothing else changes. |
| Tty.Clamp | src/gfx.c:646-647 | The clamped coordinate lies in `0..n-1`. It is the input when that is on the grid, 0 below and `n-1` above. |
| Tty.ClampIsNearest | src/gfx.c:646-647 | The clamped coordinate is the grid position nearest the one asked for. |
| Tty.CursorUp | src/gfx.c:737-742 | CUU keeps the column and the geometry and leaves the cursor on the grid. |
| Tty.CursorDown | src/gfx.c:744-750 | CUD keeps the column and the geometry and leaves the cursor on the grid. |
| Tty.CursorForward | src/gfx.c:752-758 | CUF keeps the row and the geometry and leaves the cursor on the grid. |
| Tty.CursorBack | src/gfx.c:760-765 | CUB keeps the row and the geometry and leaves the cursor on the grid. |
| Tty.RelativeMotion | src/gfx.c:737-765 | For a count `n` below 2^31 (1 without a parameter), a motion goes exactly `n` cells when there is room and stops at the edge otherwise. |
| Tty.ReversedMotion | src/gfx.c:737-765 | A count of 2^31 or more is negative as the source's `int n`, so each motion runs the opposite way by `2^32 - n` cells, again stopping at the edge. |
| Tty.CursorPosition | src/gfx.c:879-885 | CUP/HVP leaves the cursor on the grid whatever the parameters. |
| Tty.PositionOnGrid | src/gfx.c:879-885 | A 1-based position on the grid is reached exactly. No parameters means the home position. |
| Tty.SaveCursor | src/gfx.c:650-655 | Saving keeps the terminal valid and the geometry unchanged. |
| Tty.RestoreCursor | src/gfx.c:657-662 | Restoring keeps the terminal valid and the geometry unchanged. |
| Tty.SaveMoveRestore | src/gfx.c:643-662 | A saved position survives any cursor motion and is restored exactly. |
| Tty.CarriageReturn | src/gfx.c:580-582 | CR sets column 0 and changes nothing else. |
| Tty.Tab | src/gfx.c:589-592 | TAB changes only the column and keeps it on the grid. |
| Tty.TabStops | src/gfx.c:589-592 | A tab goes to the first multiple of 8 right of the cursor, or to the last column if that comes first. It never moves left and never skips a tab stop. |
| Tty.Backspace | src/gfx.c:594-599 | BS moves one column left, never past column 0. |
| Tty.Autoscroll | src/gfx.c:548-561 | Scrolling happens exactly when the row before the cursor lies in the region and the cursor has reached or passed the region's end. A cursor on row 0 has no row before it, because the 32-bit decrement wraps. Only the cursor row changes, and the result is valid. |
| Tty.AutoscrollOutcomes | src/gfx.c:548-561 | On a scroll, the cursor goes to `regionEnd - 1` and the region scrolls up one text row. Otherwise the row is clamped to `rows - 1` and nothing is drawn. |
| Tty.LineFeed | src/gfx.c:584-587 | LF keeps the terminal valid and the geometry unchanged, and draws only inside the active area. |
| Tty.LineFeedInRegion | src/gfx.c:548-561 | Inside the region, LF moves down a row until the row above the region's last. From there the cursor stays and the region scrolls up by exactly one text row. |
| Tty.LineFeedBelowRegion | src/gfx.c:548-561 | Below the region, LF moves down until the last row and never scrolls. |
| Tty.ColumnOverflow | src/gfx.c:611-619 | A cursor still on the grid is left alone. A cursor past the last column goes back on the grid through the autoscroll rule. |
| Tty.OverflowWrapsToNextLine | src/gfx.c:611-614 | Past the last column with wraparound on, the overflow check is a carriage return followed by a line feed. |
| Tty.OverflowStaysOnLastColumn | src/gfx.c:615-617 | Past the last column with wraparound off, the cursor ends on the last column. |
| Tty.ReverseVideoSwaps | src/gfx.c:115-118 | The effective colours `EffectiveFg` (`GET_FG`) and `EffectiveBg` (`GET_BG`): reverse video swaps them, and together they are always exactly the pair of attribute colours, so each draws in one of the two. |
| Tty.OverflowPlacesCursor | src/gfx.c:611-619 | With wraparound, overflow is exactly a CR followed by an LF. Without it, the cursor stays on the last column. |
| Tty.FillRect | src/gfx.c:376-393 | `gfx_fill_rect` draws nothing when the corner is off the active area. Otherwise it fills a box inside the area in the effective foreground. |
| Tty.FillRectCovers | src/gfx.c:376-393 | The box filled is exactly the part of the requested rectangle on the active area. |
| Tty.ClearRect | src/gfx.c:395-405 | `gfx_clear_rect` fills the same box as `gfx_fill_rect`, in the plain background colour, whatever reverse video says. |
| Tty.ClearScreen | src/gfx.c:274-287 | `gfx_clear` draws only inside the active area. |
| Tty.ClearTillEnd | src/gfx.c:664-671 | The box runs from the cursor cell to the right edge, one text row high. |
| Tty.ClearTillCursor | src/gfx.c:673-680 | The box runs from the left edge through the cursor cell, one text row high. |
| Tty.ClearLine | src/gfx.c:682-687 | The box is the cursor's whole text row. |
| Tty.ClearLines | src/gfx.c:695-706 | Rows `from..to`, cut back to the grid, become one full-width box. An empty range draws nothing. |
| Tty.ClearRectOnSurface | src/gfx.c:376-405 | A box whose corner is on the area is cut at the area's edges and filled in the background colour. |
| Tty.GridLinesOnArea | src/gfx.c:289-353 | Text rows of the grid lie inside the active area. |
| Tty.ScrollUpLines | src/gfx.c:289-321 | `gfx_scroll_up` draws only inside the active area. |
| Tty.ScrollDownLines | src/gfx.c:323-353 | `gfx_scroll_down` draws only inside the active area. |
| Tty.Sgr | src/gfx.c:837-877 | SGR without parameters resets the attributes to 7 on 0, not inverted. |
| Tty.SgrParamTouches | src/gfx.c:853-871 | Each ordinary SGR parameter touches only what it names: 0 resets everything. The foreground changes only for 1, 2, 30-37 and 39. The background changes only for 40-47 and 49. Reverse video changes only for 3, 7 and 27. |
| Tty.SgrStep | src/gfx.c:843-872 | One turn of the walk resumes one or three slots later, and the walk from there reaches the same attributes as the walk from the start of the turn. |
| Tty.SgrFromKeeps | src/gfx.c:842-873 | The SGR walk `SgrFrom`: a walk over slots that hold none of 0, 3, 7 or 27 leaves reverse video as it was. A walk that holds no 48 and none of 0, 40-47 or 49 leaves the background as it was. |
| Tty.SgrWithoutExtendedColours | src/gfx.c:842-873 | Without 38 or 48, the SGR walk is the plain left-to-right fold of the single-parameter rules. |
| Tty.ExtendedColours | src/gfx.c:843-851 | `38;5;N` and `48;5;N` set the foreground or background to `N`, cut to a byte. |
| Tty.TruncatedExtendedColour | src/gfx.c:843-871 | `38;5` or `48;5` without a colour slot are two ordinary parameters and change nothing. |
| Tty.SgrColourBits | src/gfx.c:856-869 | 1 sets the bright bit and 2 keeps the three colour bits. 30..37 choose the colour bits and keep the bright bit. 40..47 set the background. |
| Tty.SwapFgBg | src/gfx.c:261-265 | Reverse video toggles and exchanges the effective foreground and background. |
| Tty.SetMarginsAsWritten | src/gfx.c:941-954 | DECSTBM as written changes only the region. |
| Tty.SetMargins | src/gfx.c:941-954 | DECSTBM with the bottom margin bounded by the grid changes only the region and keeps the terminal valid. |
| Tty.MarginsOutcomes | src/gfx.c:941-954 | The three outcomes. Accepted margins (1-based, at least three rows apart, on the grid) become the region. Two rejected margins leave it alone. Any other count selects the whole grid. |
| Tty.MarginsAgreeOnGrid | src/gfx.c:941-954 | When the bottom margin is on the grid, the two versions agree. |
| Tty.MarginsAsWrittenLeaveGrid | src/gfx.c:945-947 | As written, `ESC [ 1 ; rows+1 r` puts the region's end below the grid. |
| Tty.InsertLines | src/gfx.c:809-816 | Outside the region IL does nothing. Inside it, IL draws only inside the active area. |
| Tty.DeleteLines | src/gfx.c:818-825 | Outside the region DL does nothing. Inside it, DL draws only inside the active area. |
| Tty.InsertDeleteRange | src/gfx.c:809-825 | IL and DL move text rows `row..regionEnd` by the same count, which never exceeds the rows left in the region. |
| Tty.EraseInDisplay | src/gfx.c:767-784 | ED keeps the terminal valid and draws inside the active area. |
| Tty.EraseInDisplayBelow | src/gfx.c:767-771 | ED 0 clears from the cursor row to the bottom of the grid. |
| Tty.EraseInDisplayAbove | src/gfx.c:773-775 | ED 1 clears from the top of the grid through the cursor row. |
| Tty.EraseInDisplayWhole | src/gfx.c:777-780 | ED 2 homes the cursor and fills the whole active area in the effective background. |
| Tty.EraseInLine | src/gfx.c:786-805 | EL draws only inside the active area. |
| Tty.EraseInLineParts | src/gfx.c:786-805 | EL without a parameter is EL 0. EL 0, EL 1 and EL 2 clear to the end, to the cursor and the whole line. |
| Tty.CursorReport | src/gfx.c:926-935 | The DSR 6 answer is 10 bytes. |
| Tty.ReportField | src/gfx.c:930-932 | A report field is one more than the coordinate, modulo 256. |
| Tty.StatusReport | src/gfx.c:916-939 | DSR answers exactly when it has one parameter and that parameter is 5 or 6. The answer starts with `ESC [` and is 4 or 10 bytes long. |
| Tty.AttributesReport | src/gfx.c:895-914 | DA answers exactly when it has no parameter or a first parameter of 0, and the answer is `ESC [ ? 1 ; 0 c`. |
| Tty.CursorReportReadsBack | src/gfx.c:926-935 | The answer is `ESC [ ddd ; ddd R`. On a grid smaller than 256 in each direction, its fields read back as the 1-based cursor position. |
| Tty.ReportFieldBelow | src/gfx.c:930-932 | A coordinate below 255 is reported as itself plus one. |
| Tty.CursorReportAtHome | src/gfx.c:926-935 | At the home position the answer is `ESC[001;001R`. |
| Tty.SetMode | src/gfx.c:722-735 | DECSET/DECRST change only wraparound and cursor visibility. |
| Tty.SetModeOutcomes | src/gfx.c:722-735 | With the `?` marker and the single parameter 7, `h`/`l` turns wraparound on/off. With 25, it shows/hides the cursor. Every other case leaves the terminal unchanged: no `?`, a parameter count other than one, or another value. |
| Tty.Final | src/gfx.c:718-968 | Every final letter keeps the terminal valid and the geometry unchanged, and draws only inside the active area. Only `c` and `n` answer the host. |
| Tty.FinalGroups | src/gfx.c:718-968 | Only the editing letters draw and only the report letters answer. The report letters leave the terminal unchanged. |
| Tty.ResetTerminal | src/gfx.c:1046-1050 | `ESC c`: default attributes, cursor home, the active area cleared in black. |
| Tty.SetScreenGeometry | src/gfx.c:154-176 | The old active area is cleared. Border, height and rows become the layout's and the cursor goes home. |
| Tty.SetFontHeightAsWritten | src/gfx.c:178-200 | As written, the font changes, but the column count, the region and the saved row are kept. |
| Tty.FontChangeAsWrittenLeavesGrid | src/gfx.c:178-200 | On 640x480 with no line limit, going from the 16 to the 20-pixel font as written leaves 80 columns (800 pixels) on a 640-pixel line, with the region and saved row off the 23-row grid. |
| Tty.SetFontHeight | src/gfx.c:178-200 | The corrected font change keeps the terminal valid. The grid gets the new layout and the width's columns, the region becomes the whole grid, and cursor and saved cursor go home. |
| Tty.ToggleFontHeight | src/gfx.c:141-152 | The toggle selects the next height of the cycle and keeps the terminal valid. |
| Tty.Initial | src/gfx.c:202-239 | The state `gfx_set_env` leaves is valid. The grid has the rows of the unlimited layout, and the configured line limit is stored for later. |
| Display.Perform | src/gfx.c:718-968 | Carrying out an outcome keeps the frame buffer's shape and appends exactly its reply to the output. |
| Display.Act | src/gfx.c:1031-1064 | Carrying out a scanner action (plot, reset, or a completed sequence) leaves the scanner and the saved cell untouched. The cursor is left on the grid or one column past its end. |
| Display.CursorCellInside | src/gfx.c:470-473 | The cursor cell lies in the frame buffer and fits the cursor buffer. |
| Display.GlyphCell | src/gfx.c:475-480 | Each pixel of the cell is the effective foreground where the glyph bit is set and the effective background elsewhere. |
| Display.Putc | src/gfx.c:459-483 | `gfx_putc` moves the cursor one column on and changes neither scanner, output nor saved cell. |
| Display.RestoreCursorContent | src/gfx.c:490-504 | Restoring changes only the frame buffer. |
| Display.SaveCursorContent | src/gfx.c:506-521 | Saving changes only the cursor buffer, and only its first cell-sized part. |
| Display.RestoreAfterSave | src/gfx.c:490-521 | Putting back the cell just saved leaves the frame buffer exactly as it was. |
| Display.SaveAfterRestore | src/gfx.c:490-521 | Saving the cell just put back gives the cursor buffer back. |
| Display.WriteCellPrefix | src/gfx.c:498-503 | Only the first `h*w` bytes of the cursor buffer are written to the screen. |
| Display.ScanStep | src/gfx.c:607 | The scanner takes the byte and the terminal acts on its action. |
| Display.Control | src/gfx.c:579-609 | Control characters leave the scanner alone. Every other byte advances it. |
| Display.Feed | src/gfx.c:578-620 | After every byte the terminal is consistent again: cursor on the grid and region on the grid. |
| Display.FeedAll | src/gfx.c:578-620 | Any string of bytes keeps the terminal consistent. |
| Display.StrLen | src/gfx.c:572-574 | The length used for a length of 0 is the position of the first NUL byte. |
| Display.PutString | src/gfx.c:568-623 | `gfx_term_putstring` keeps the terminal consistent. |
| Display.PlainTextDrawsGlyph | src/gfx.c:459-483 | A printable byte in normal text draws its glyph in the cursor cell in the effective colours. No other pixel changes and the cursor moves one column on. |
| Display.QuietBytes | src/gfx.c:578-620 | Bytes on which the scanner takes no action only change the scanner. |
| Display.ControlSequence | src/gfx.c:568-968 | End to end: `ESC [ p1;...;pn F` fed one byte at a time through `Feed` (the loop body of `gfx_term_putstring`) does exactly what the final letter does with those parameters. That covers the terminal state, the frame buffer and the reply. The scanner ends in normal text. |
| Display.BareControlSequence | src/gfx.c:568-968 | The same for `ESC [ F` without parameters (such as `ESC [ H`, `ESC [ m`, `ESC [ J`, `ESC [ K`): the final letter is carried out with an empty parameter list. |
| Display.FinalThenOverflow | src/gfx.c:606-619 | The byte that completes a sequence has exactly the effect of its command, because the column check after it finds the cursor on the grid. |
| Display.EncodeParamsQuiet | src/gfx.c:970-987 | An encoded parameter list holds only digits and `;`. |
| Display.PrivateControlSequence | src/gfx.c:568-968 | End to end with the private marker: `ESC [ ? p1;...;pn F` fed one byte at a time through `Feed` does exactly what the final letter does with those parameters and `?`. That covers the terminal state, the frame buffer and the reply. The scanner ends in normal text. |
| Display.ModeSequence | src/gfx.c:722-735 | End to end: feeding `ESC [ ? 7 h`/`l` turns wraparound on/off, and `ESC [ ? 25 h`/`l` shows/hides the cursor. Nothing is drawn or sent, and no other field changes. |
| Display.PrivatePrefixQuiet | src/gfx.c:996-1010 | Until the final letter, a private control sequence (`ESC [ ?` and its parameters) yields no action. |
| Display.PrefixQuiet | src/gfx.c:970-1040 | Until the final letter, a control sequence yields no action. |
| Terminal.Terminal.constructor | src/gfx.c:202-239 | `gfx_set_env`: the state is `Tty.Initial`, the scanner is in normal text with no parameters, and nothing has been sent. |
| Terminal.Terminal.FillPixelRows | src/gfx.c:274-287 | The DMA fill of whole pixel rows leaves exactly `FillRows` of the old image. |
| Terminal.Terminal.MovePixelRows | src/gfx.c:299-305 | The DMA block move of pixel rows, copying in increasing address order. It moves rows upward, possibly overlapping their source, or between disjoint ranges, and it leaves exactly `MoveRows`. |
| Terminal.Terminal.FillPixelBox | src/gfx.c:355-374 | The 2D DMA fill of a box. It leaves exactly `FillArea`. |
| Terminal.Terminal.DrawCell | src/gfx.c:475-480 | The glyph loop writes exactly the packed cell. |
| Terminal.Terminal.Clear | src/gfx.c:274-287 | `gfx_clear` leaves exactly the image `ClearScreen` describes. |
| Terminal.Terminal.ScrollUp | src/gfx.c:289-321 | `gfx_scroll_up` leaves exactly the image `ScrollUpLines` describes. |
| Terminal.Terminal.MoveAndFill | src/gfx.c:294-318 | The move followed by the fill is a scroll up of the pixel range. |
| Terminal.Terminal.ScrollDown | src/gfx.c:323-353 | `gfx_scroll_down` with a counter that stops at `start` leaves exactly the image `ScrollDownLines` describes. |
| Terminal.Terminal.MoveDownAndFill | src/gfx.c:328-351 | The row loop followed by the fill moves the range down by the count and fills the vacated rows. |
| Terminal.Terminal.MoveLinesDown | src/gfx.c:330-338 | Moving text rows one at a time, lowest first, is one block move down by `n` rows. |
| Terminal.Terminal.MoveLineDown | src/gfx.c:331-337 | One step of that loop extends the moved block by one text row upward. |
| Terminal.Terminal.SetCursorVisibility | src/gfx.c:625-629 | Only the visibility flag changes. |
| Terminal.Terminal.SetWraparound | src/gfx.c:631-635 | Only the wraparound flag changes. |
| Terminal.Terminal.BlinkCursor | src/gfx.c:637-641 | Only the blink state changes, and it is inverted. |
| Terminal.Terminal.SetFg | src/gfx.c:255-259 | Only the foreground changes. |
| Terminal.Terminal.SetBg | src/gfx.c:249-253 | Only the background changes. |
| Terminal.Terminal.SwapFgBg | src/gfx.c:261-265 | Only the attributes change, as `Tty.SwapFgBg`. |
| Terminal.Terminal.ResetAttrib | src/gfx.c:241-247 | The attributes become 7 on 0, not inverted, and nothing else changes. |
| Terminal.Terminal.TermSize | src/gfx.c:267-272 | Returns the grid's rows and columns. |
| Terminal.Terminal.MoveCursor | src/gfx.c:643-648 | The cursor moves as `Tty.MoveCursor` says and nothing else changes. |
| Terminal.Terminal.SaveCursor | src/gfx.c:650-655 | As `Tty.SaveCursor`. |
| Terminal.Terminal.RestoreCursor | src/gfx.c:657-662 | As `Tty.RestoreCursor`. |
| Terminal.Terminal.FillRect | src/gfx.c:376-393 | The frame buffer becomes the image `Tty.FillRect` describes. |
| Terminal.Terminal.ClearRect | src/gfx.c:395-405 | Same box as the fill, in the background, and the foreground is restored afterwards. |
| Terminal.Terminal.ClearTillEnd | src/gfx.c:664-671 | As `Tty.ClearTillEnd`. |
| Terminal.Terminal.ClearTillCursor | src/gfx.c:673-680 | As `Tty.ClearTillCursor`. |
| Terminal.Terminal.ClearLine | src/gfx.c:682-687 | As `Tty.ClearLine`. |
| Terminal.Terminal.ClearLines | src/gfx.c:695-706 | As `Tty.ClearLines`. |
| Terminal.Terminal.Putc | src/gfx.c:459-483 | The nested loop over the glyph leaves the state `Display.Putc` gives. |
| Terminal.Terminal.RestoreCursorContent | src/gfx.c:490-504 | The nested copy loop leaves the state `Display.RestoreCursorContent` gives. |
| Terminal.Terminal.SaveCursorContent | src/gfx.c:506-521 | The nested copy loop leaves the state `Display.SaveCursorContent` gives. |
| Terminal.Terminal.CopyCellRow | src/gfx.c:516-519 | One pixel row of the cell is copied to the next `w` bytes of the buffer, and the rest of the buffer is kept. |
| Terminal.Terminal.CursorMotion | src/gfx.c:737-765 | CUU, CUD, CUF and CUB as the `Tty` functions say. |
| Terminal.Terminal.CursorPosition | src/gfx.c:879-885 | As `Tty.CursorPosition`. |
| Terminal.Terminal.SetMode | src/gfx.c:722-735 | As `Tty.SetMode`, whose outcomes `Tty.SetModeOutcomes` gives: `?7` sets wraparound, `?25` cursor visibility, anything else changes nothing. |
| Terminal.Terminal.SetMargins | src/gfx.c:941-954 | As `Tty.SetMargins`, the corrected DECSTBM. |
| Terminal.Terminal.SgrParameter | src/gfx.c:853-871 | One ordinary SGR parameter, as `Tty.SgrParam`. |
| Terminal.Terminal.SelectGraphicRendition | src/gfx.c:837-877 | The SGR loop leaves the attributes `Tty.Sgr` gives. |
| Terminal.Terminal.SgrSlot | src/gfx.c:843-872 | One turn of the SGR loop sets the attribute fields and returns the next slot exactly as `Tty.SgrStep` says; nothing else changes. |
| Terminal.Terminal.EraseInDisplay | src/gfx.c:767-784 | As `Tty.EraseInDisplay`. |
| Terminal.Terminal.EraseInLine | src/gfx.c:786-805 | As `Tty.EraseInLine`. |
| Terminal.Terminal.InsertLines | src/gfx.c:809-816 | As `Tty.InsertLines`. |
| Terminal.Terminal.DeleteLines | src/gfx.c:818-825 | As `Tty.DeleteLines`. |
| Terminal.Terminal.UartWrite | src/gfx.c:911 | The first `n` bytes of the buffer are appended to the output. |
| Terminal.Terminal.AttributesReport | src/gfx.c:895-914 | Appends the DA answer, if any, to the output. |
| Terminal.Terminal.StatusReport | src/gfx.c:916-939 | Appends the DSR answer, if any, to the output. |
| Terminal.WriteCursorReport | src/gfx.c:927-933 | The buffer writes of the cursor-position report leave `ESC [`, the row as three digits, `;`, the column as three digits and `R` in its first ten bytes. |
| Terminal.Terminal.CursorCommand | src/gfx.c:737-893 | The cursor letters, as `Tty.Final`. |
| Terminal.Terminal.SettingCommand | src/gfx.c:722-958 | The mode, SGR, margin and ignored letters, as `Tty.Final`. |
| Terminal.Terminal.EditCommand | src/gfx.c:767-825 | The erase, insert and delete letters, as `Tty.Final`. |
| Terminal.Terminal.ReportCommand | src/gfx.c:895-939 | The report letters, as `Tty.Final`. |
| Terminal.Terminal.Command | src/gfx.c:721-962 | The whole switch of `state_fun_final_letter`, as `Tty.Final`. |
| Terminal.Terminal.StateFinalLetter | src/gfx.c:718-968 | The command is carried out, then the count goes to 0 and the scanner to normal text. |
| Terminal.Terminal.ResetTerminal | src/gfx.c:1046-1050 | As `Tty.ResetTerminal`. |
| Terminal.Terminal.StateNormalText | src/gfx.c:1055-1064 | The state after the byte is `Display.ScanStep`'s. |
| Terminal.Terminal.StateDouble | src/gfx.c:1018-1029 | The state after the byte is `Display.ScanStep`'s. |
| Terminal.Terminal.StateWaitSquareBracket | src/gfx.c:1031-1053 | The state after the byte is `Display.ScanStep`'s. |
| Terminal.Terminal.StateSelectEscape | src/gfx.c:993-1016 | The state after the byte is `Display.ScanStep`'s. |
| Terminal.Terminal.FirstParameter | src/gfx.c:995-1012 | The parameter-opening branches change only the scanner, as `Scanner.Advance` says. |
| Terminal.Terminal.StateReadDigit | src/gfx.c:970-991 | The state after the byte is `Display.ScanStep`'s. |
| Terminal.Terminal.AccumulateDigit | src/gfx.c:973-978 | The digit branch, as `Display.ScanStep`. |
| Terminal.Terminal.NextParameter | src/gfx.c:981-987 | The corrected `;` branch, as `Display.ScanStep`. |
| Terminal.Terminal.Step | src/gfx.c:607 | The call through `state.next` dispatches on the mode, as `Display.ScanStep`. |
| Terminal.Terminal.HandleAutoscroll | src/gfx.c:548-561 | As `Tty.Autoscroll`. |
| Terminal.Terminal.ScrollRegion | src/gfx.c:555-557 | The cursor goes to the row above the region's end and the region scrolls up one text row. |
| Terminal.Terminal.ColumnOverflow | src/gfx.c:611-619 | As `Tty.ColumnOverflow`. |
| Terminal.Terminal.Control | src/gfx.c:580-604 | The control characters, as `Display.Control`. |
| Terminal.Terminal.LineFeed | src/gfx.c:584-587 | As `Tty.LineFeed`. |
| Terminal.Terminal.Feed | src/gfx.c:579-619 | One turn of the `putstring` loop, as `Display.Feed`, keeping the invariant. |
| Terminal.Terminal.PutString | src/gfx.c:568-623 | `gfx_term_putstring`, as `Display.PutString` on the bytes up to `length`, or up to the first NUL when `length` is 0. |
| Terminal.Terminal.SetScreenGeometry | src/gfx.c:154-176 | As `Tty.SetScreenGeometry`. |
| Terminal.Terminal.PlaceRow | src/gfx.c:555 | Only the cursor row changes. |
| Terminal.Terminal.PlaceCursor | src/gfx.c:612-617 | Only the cursor changes. |
| Terminal.Terminal.Relayout | src/gfx.c:168-173 | Border, height and rows take the layout's values and the cursor goes home. |
| Terminal.Terminal.SetFontHeightAsWritten | src/gfx.c:178-200 | As `Tty.SetFontHeightAsWritten`. |
| Terminal.Terminal.SelectFont | src/gfx.c:180-198 | Font height, glyph width and clamped line limit are set. |
| Terminal.Terminal.SetFontHeight | src/gfx.c:178-200 | As `Tty.SetFontHeight`, the corrected font change. |
| Terminal.Terminal.ResetGrid | src/gfx.c:217-221 | Columns and region are set, and the saved cursor goes home. |
| Terminal.Terminal.ToggleFontHeight | src/gfx.c:141-152 | As `Tty.ToggleFontHeight`. |
| Terminal.FontPlan | src/gfx.c:178-200 | The corrected font change is the as-written one followed by the grid reset. |
| Terminal.AutoscrollScrolls | src/gfx.c:551-557 | When the test holds, autoscroll is the one-row scroll of the region. |
| Terminal.AutoscrollClamps | src/gfx.c:558-560 | When the test fails, autoscroll clamps the row to the grid. |
| Terminal.OverflowWraps | src/gfx.c:612-614 | With wraparound, overflow is autoscroll from column 0 of the next row. |
| Terminal.OverflowStays | src/gfx.c:615-617 | Without wraparound, overflow is autoscroll from the last column. |
| Terminal.ClearLinesBox | src/gfx.c:695-706 | A non-empty line range is one `gfx_clear_rect` call of full width. |
| Terminal.ScrollDownPlan | src/gfx.c:323-353 | `gfx_scroll_down`'s pixel offsets stay on the frame buffer and describe one block scroll down of the range by the cut count. |
| Terminal.ScrollUpPlan | src/gfx.c:289-321 | `gfx_scroll_up`'s source, destination and fill offsets are adjacent, stay on the frame buffer, and describe one block scroll up of the range. |
| Terminal.FillRectPlan | src/gfx.c:376-393 | With its corner on the surface, `gfx_fill_rect` fills the box cut back at the right and bottom edges, in the effective foreground. |
| Terminal.ScrollDownCounter | src/gfx.c:330 | The unsigned counter after `steps` decrements is `first - steps` modulo 2^32. |
| Terminal.ScrollDownCounterStops | src/gfx.c:330 | With `start >= 1` the loop test fails exactly after the row `start` has been moved. |
| Terminal.ScrollDownCounterWraps | src/gfx.c:330 | With `start == 0` the counter wraps from 0 to 2^32 - 1, so the test `counter >= 0` never fails. |
| Terminal.InsertAtTopReachesZero | src/gfx.c:809-816 | IL on the top row of a region starting at row 0 calls `gfx_scroll_down` with `start` 0. |

## Left out

- `gfx_line` (src/gfx.c:407-457): line drawing for the graphics commands. It is not part of the terminal path.
- `gfx_term_render_cursor` (src/gfx.c:523-546): the cursor drawing depends on a static blink state and the cursor colour. It is timer-driven rather than byte-driven. `cursor_color`, `line_attributes` and `ctx.size` are not modelled.
- The DMA engine (`dma_init`, `dma_enqueue_operation`, `dma_execute_queue_and_wait`, `mem_2uncached`, the `MKCOL32` word patterns and the 2D stride encoding) is hardware. Each DMA transfer is modelled as one atomic fill or block move of the frame buffer, which the queue-and-wait makes it in effect.
- The font tables `G_FONT_GLYPHS*` are data that is not part of this model. The glyph is a parameter: a function from character code, font height and pixel index to "bit set".
- `uart_write` is modelled as appending to the `output` sequence.
- `strlen` is modelled by `Display.StrLen`, on a byte string that contains a NUL.
- Terminal.Terminal.constructor: does not clear the frame buffer. In `gfx_set_env` the clear inside `gfx_set_screen_geometry` runs while the zero-initialised context still has a size of 0, so it writes nothing. `dma_init` is left out with the DMA engine.
- Terminal.Terminal.constructor: requires a frame buffer at least 60 rows high and at least 10 pixels wide, below 2^31 in both directions, and a line limit other than 1. The source checks none of these. Smaller or odd screens would give a grid without room for a scrolling region.
- Tty.FillRect, Tty.ClearRect, Terminal.Terminal.FillRect, Terminal.Terminal.ClearRect: require `x + w` and `y + h` to stay below 2^32. With 32-bit wrap-around the source's clip test can let through a box wider than the surface. The terminal's own calls never come near that.
- Cursor arithmetic in the final-letter cases (`cursor_row - n`, `cursor_row + n`, `r - 1` on an `int`) is modelled on unbounded integers after reading the parameter as a 32-bit `int`. Signed overflow at the extremes is undefined in C and is not modelled.
- `GFX_COL` is defined outside `gfx.c`. The model takes it to be an unsigned byte, so `38;5;N` keeps `N` modulo 256.
- The `@`, `P` and `?` final letters and the `#` line-attribute sequences have empty bodies in the source. They are modelled as doing nothing.
- Terminal.Terminal.HandleAutoscroll: the scroll and the cursor placement are carried out in the opposite order to the source. Neither depends on the other, so the final state is the same.
- The cursor-position report: the code sends three digits per field through `b2s` (zero-padded, such as `ESC [ 001;001R`), and the model follows the code. The usual VT100 reply has no fixed field width.
- Display.Feed: the state of the `putstring` loop between two bytes is required to be consistent (cursor and region on the grid). A region end pushed past the grid by the as-written DECSTBM, or a stale grid after the as-written font change, falls outside this. The corrected versions below are what the loop uses.

## Findings

| source | as written | input that shows it | evidently intended | confidence | as-written member | corrected member |
|---|---|---|---|---|---|---|
| src/gfx.c:981-987 | `;` increments `cmd_params_size` and zeroes `cmd_params[size-1]` with no bound check | `ESC [ 0;0;0;0;0;0;0;0;0;0;` (an eleventh parameter) writes `cmd_params[10]`, one past the ten-slot array. In the `scn_state` struct (src/gfx.c:45-53) that is `cmd_params_size`, which the write sets to 0 | ignore a separator once all ten slots are in use | high, not executed | Scanner.SemicolonOverflow | Scanner.Advance |
| src/gfx.c:330 | the row counter of `gfx_scroll_down` is `unsigned int` and the loop test is `line_to_move >= start_line` | `ESC [ L` with the cursor on row 0 and a region starting at row 0 calls `gfx_scroll_down(0, …)`. The counter wraps from 0 to 2^32 - 1 and the test never fails | stop after moving row `start_line` | high, not executed | Terminal.ScrollDownCounterWraps | Terminal.Terminal.ScrollDown |
| src/gfx.c:945 | DECSTBM accepts any `end` with `end - start >= 2`, without comparing it to the number of rows | `ESC [ 1 ; rows+1 r` sets `scrolling_region_end` to `rows`, one row below the grid. Later IL, DL and autoscroll then move pixel rows past the active area | also require `end <= rows` | medium, not executed | Tty.MarginsAsWrittenLeaveGrid | Tty.SetMargins |
| src/gfx.c:178-200 | `gfx_set_font_height` recomputes rows but keeps `columns`, the scrolling region and the saved cursor | on 640x480 with no line limit, 16-pixel to 20-pixel font leaves 80 columns of 10-pixel glyphs (800 pixels on a 640-pixel line) and region end 28 on a 23-row grid | recompute the columns, reset the region to the whole grid and the saved cursor to home | medium, not executed | Tty.FontChangeAsWrittenLeavesGrid | Tty.SetFontHeight |
