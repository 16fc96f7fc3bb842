/**
 * The whole terminal as a value: terminal state, scanner, frame buffer
 * image, the cell saved from under the cursor, and the bytes sent back to
 * the host. `Feed` is the meaning of one byte of `gfx_term_putstring`'s
 * loop, `PutString` of the whole call.
 */
module Display {
  import opened Bytes
  import opened Geometry
  import opened Image
  import opened Scanner
  import opened Tty

  /**
   * A font, as a lookup: whether pixel `k` (row after row) of the glyph of
   * character `code` in the font of height `h` is set.
   */
  type Glyph = (byte, nat, nat) -> bool

  /** Size of the buffer that keeps the cell under the cursor (one 10 by 20 glyph). */
  const CURSOR_BUFFER_SIZE: nat := 200

  datatype Vt = Vt(term: Term, scan: ScanState, img: Image, cursorCell: seq<byte>, out: seq<byte>)

  /** The frame buffer image has the terminal's dimensions. */
  predicate Framed(v: Vt)
  {
    |v.img| == v.term.fullHeight && Rectangular(v.img, v.term.pitch) && |v.cursorCell| == CURSOR_BUFFER_SIZE
    && Wellformed(v.scan)
  }

  /** The state between two bytes: every invariant holds. */
  predicate Consistent(v: Vt)
  {
    Framed(v) && Tty.Valid(v.term)
  }

  /** The state after a glyph has been drawn: the cursor may sit one past the last column. */
  predicate Pending(v: Vt)
  {
    Framed(v) && Tty.Valid(v.term.(col := 0)) && v.term.col <= v.term.columns
  }

  /** The drawing stays inside the image. */
  predicate Fits(img: Image, e: Effect)
  {
    match e
    case NoEffect => true
    case FillLines(lo, hi, _) => lo <= hi <= |img|
    case FillBox(top, _, h, _, _) => top + h <= |img|
    case ScrollUp(lo, hi, k, _) => lo + k <= hi <= |img|
    case ScrollDown(lo, hi, k, _) => lo + k <= hi <= |img|
  }

  /** A drawing carried out on the image. */
  function Apply(img: Image, e: Effect): (r: Image)
    requires Fits(img, e)
    ensures |r| == |img| && forall n: nat | Rectangular(img, n) :: Rectangular(r, n)
  {
    match e
    case NoEffect => img
    case FillLines(lo, hi, c) => FillRows(img, lo, hi, c)
    case FillBox(top, left, h, w, c) => FillArea(img, top, left, h, w, c)
    case ScrollUp(lo, hi, k, c) => ScrollUpRows(img, lo, hi, k, c)
    case ScrollDown(lo, hi, k, c) => ScrollDownRows(img, lo, hi, k, c)
  }

  /** Carry out an outcome: new terminal state, its drawing, its reply appended to the output. */
  function Perform(v: Vt, o: Outcome): (r: Vt)
    requires Framed(v) && 2 * v.term.border + v.term.height == v.term.fullHeight && Inside(v.term, o.effect)
    requires o.term.fullHeight == v.term.fullHeight && o.term.pitch == v.term.pitch
    ensures Framed(r) && r.term == o.term && r.scan == v.scan && r.cursorCell == v.cursorCell
    ensures r.out == v.out + o.reply
  {
    v.(term := o.term, img := Apply(v.img, o.effect), out := v.out + o.reply)
  }

  // ---------------------------------------------------------------------
  // The cursor cell

  function CellTop(t: Term): nat { t.border + t.row * t.fontHeight }

  function CellLeft(t: Term): nat { t.col * t.fontWidth }

  /** The glyph cell at the cursor lies inside the image. */
  lemma CursorCellInside(v: Vt)
    requires Framed(v) && Tty.Valid(v.term.(col := 0)) && v.term.col < v.term.columns
    ensures CellInside(v.img, CellTop(v.term), CellLeft(v.term), v.term.fontHeight, v.term.fontWidth)
    ensures v.term.fontHeight * v.term.fontWidth <= CURSOR_BUFFER_SIZE
  {
    var t := v.term;
    RowInside(t.(col := 0), t.row);
    ColumnInside(t, t.col);
  }

  /** The pixels of the glyph of `code` in the effective colours, row after row. */
  function GlyphCell(glyph: Glyph, code: byte, h: nat, w: nat, a: Attrs): (p: seq<byte>)
    ensures |p| == h * w
    ensures forall k | 0 <= k < h * w :: p[k] == if glyph(code, h, k) then EffectiveFg(a) else EffectiveBg(a)
  {
    var fg, bg := EffectiveFg(a), EffectiveBg(a);
    seq<byte>(h * w, k requires 0 <= k < h * w => if glyph(code, h, k) then fg else bg)
  }

  /**
   * `gfx_putc`: the glyph drawn in the cell at the cursor, set pixels in the
   * effective foreground and the others in the effective background, and
   * the cursor one column on. Nothing happens off the grid.
   */
  function Putc(v: Vt, glyph: Glyph, code: byte): (r: Vt)
    requires Consistent(v)
    ensures Pending(r) && r.term == v.term.(col := v.term.col + 1)
    ensures r.scan == v.scan && r.out == v.out && r.cursorCell == v.cursorCell
  {
    var t := v.term;
    if t.col >= t.columns || t.row >= t.rows then v
    else
      CursorCellInside(v);
      var p := GlyphCell(glyph, code, t.fontHeight, t.fontWidth, t.attrs);
      v.(img := WriteCell(v.img, CellTop(t), CellLeft(t), t.fontHeight, t.fontWidth, p),
         term := t.(col := t.col + 1))
  }

  /** `gfx_restore_cursor_content`: the saved cell written back under the cursor. */
  function RestoreCursorContent(v: Vt): (r: Vt)
    requires Consistent(v)
    ensures Consistent(r) && r == v.(img := r.img)
  {
    var t := v.term;
    CursorCellInside(v);
    v.(img := WriteCell(v.img, CellTop(t), CellLeft(t), t.fontHeight, t.fontWidth, v.cursorCell))
  }

  /** `gfx_save_cursor_content`: the cell under the cursor copied to the front of the buffer. */
  function SaveCursorContent(v: Vt): (r: Vt)
    requires Consistent(v)
    ensures Consistent(r) && r == v.(cursorCell := r.cursorCell)
    ensures var n := v.term.fontHeight * v.term.fontWidth; r.cursorCell[n..] == v.cursorCell[n..]
  {
    var t := v.term;
    CursorCellInside(v);
    var n := t.fontHeight * t.fontWidth;
    v.(cursorCell := ReadCell(v.img, CellTop(t), CellLeft(t), t.fontHeight, t.fontWidth) + v.cursorCell[n..])
  }

  /** Putting back a cell just saved leaves the frame buffer exactly as it was. */
  lemma RestoreAfterSave(v: Vt)
    requires Consistent(v)
    ensures RestoreCursorContent(SaveCursorContent(v)) == v.(cursorCell := SaveCursorContent(v).cursorCell)
  {
    var t := v.term;
    CursorCellInside(v);
    var n := t.fontHeight * t.fontWidth;
    var saved := SaveCursorContent(v);
    var p := ReadCell(v.img, CellTop(t), CellLeft(t), t.fontHeight, t.fontWidth);
    assert saved.cursorCell[..n] == p;
    WriteCellPrefix(v.img, CellTop(t), CellLeft(t), t.fontHeight, t.fontWidth, saved.cursorCell);
    WriteWhatWasRead(v.img, CellTop(t), CellLeft(t), t.fontHeight, t.fontWidth);
  }

  /** Only the first `h * w` bytes of a cell buffer are written. */
  lemma WriteCellPrefix(img: Image, top: nat, left: nat, h: nat, w: nat, p: seq<byte>)
    requires h * w <= |p|
    ensures WriteCell(img, top, left, h, w, p) == WriteCell(img, top, left, h, w, p[..h * w])
  {
    var a := WriteCell(img, top, left, h, w, p);
    var b := WriteCell(img, top, left, h, w, p[..h * w]);
    forall i | 0 <= i < |img|
      ensures a[i] == b[i]
    {
      if top <= i < top + h {
        forall j | 0 <= j < |img[i]|
          ensures a[i][j] == b[i][j]
        {
          if left <= j < left + w {
            CellIndex(i - top, j - left, h, w);
          }
        }
      }
    }
  }

  /** Saving the cell just put back gives the buffer's contents back. */
  lemma SaveAfterRestore(v: Vt)
    requires Consistent(v)
    ensures SaveCursorContent(RestoreCursorContent(v)).cursorCell == v.cursorCell
  {
    var t := v.term;
    CursorCellInside(v);
    var n := t.fontHeight * t.fontWidth;
    ReadAfterWrite(v.img, CellTop(t), CellLeft(t), t.fontHeight, t.fontWidth, v.cursorCell);
    assert v.cursorCell[..n] + v.cursorCell[n..] == v.cursorCell;
  }

  // ---------------------------------------------------------------------
  // One byte

  /** What the terminal does with an action of the scanner. */
  function Act(v: Vt, glyph: Glyph, action: Action): (r: Vt)
    requires Consistent(v)
    ensures Pending(r) && r.scan == v.scan && r.cursorCell == v.cursorCell
  {
    match action
    case Nothing => v
    case Plot(code) => Putc(v, glyph, code)
    case Reset => Perform(v, ResetTerminal(v.term))
    case Dispatch(final, ps, privateMode) => Perform(v, Tty.Final(v.term, final, ps, privateMode))
  }

  /** The scanner takes a byte, and the terminal carries out the action it yields. */
  function ScanStep(v: Vt, glyph: Glyph, ch: byte): (r: Vt)
    requires Consistent(v)
    ensures Pending(r) && r.scan == Advance(v.scan, ch).0 && r.cursorCell == v.cursorCell
  {
    var next := Advance(v.scan, ch);
    Act(v.(scan := next.0), glyph, next.1)
  }

  /** The bytes `gfx_term_putstring` handles itself rather than passing to the scanner. */
  predicate IsControl(ch: byte)
  {
    ch == CR || ch == LF || ch == TAB || ch == BS || ch == SO || ch == SI || ch == BEL
  }

  /** The `switch` on one byte: control characters, or the scanner. */
  function Control(v: Vt, glyph: Glyph, ch: byte): (r: Vt)
    requires Consistent(v)
    ensures Pending(r) && r.cursorCell == v.cursorCell
    ensures r.scan == if IsControl(ch) then v.scan else Advance(v.scan, ch).0
  {
    if ch == CR then v.(term := CarriageReturn(v.term))
    else if ch == LF then Perform(v, LineFeed(v.term))
    else if ch == TAB then v.(term := Tab(v.term))
    else if ch == BS then v.(term := Backspace(v.term))
    else if ch == SO || ch == SI || ch == BEL then v
    else ScanStep(v, glyph, ch)
  }

  /** One byte of `gfx_term_putstring`: the switch, then the column-overflow check. */
  function Feed(v: Vt, glyph: Glyph, ch: byte): (r: Vt)
    requires Consistent(v)
    ensures Consistent(r) && r.cursorCell == v.cursorCell
    ensures r.scan == if IsControl(ch) then v.scan else Advance(v.scan, ch).0
  {
    var w := Control(v, glyph, ch);
    Perform(w, ColumnOverflow(w.term))
  }

  /** The bytes fed one after another, the last one last. */
  function FeedAll(v: Vt, glyph: Glyph, bytes: seq<byte>): (r: Vt)
    requires Consistent(v)
    ensures Consistent(r) && r.cursorCell == v.cursorCell
    decreases |bytes|
  {
    if bytes == [] then v else Feed(FeedAll(v, glyph, bytes[..|bytes| - 1]), glyph, bytes[|bytes| - 1])
  }

  /** The length `gfx_term_putstring` uses for a length of 0: up to the first NUL byte. */
  function StrLen(s: seq<byte>): (n: nat)
    requires 0 in s
    ensures n < |s| && s[n] == 0 && forall k | 0 <= k < n :: s[k] != 0
  {
    if s[0] == 0 then 0 else StrLen(s[1..]) + 1
  }

  /**
   * `gfx_term_putstring`: the cell under the cursor is put back, the bytes
   * are fed, and the cell under the (new) cursor is saved.
   */
  function PutString(v: Vt, glyph: Glyph, bytes: seq<byte>): (r: Vt)
    requires Consistent(v)
    ensures Consistent(r)
  {
    SaveCursorContent(FeedAll(RestoreCursorContent(v), glyph, bytes))
  }

  // ---------------------------------------------------------------------
  // Properties

  /**
   * A printable byte in normal text draws its glyph in the cursor cell, in
   * the effective colours, changes no other pixel, and moves the cursor one
   * column on (this is not the last column).
   */
  lemma PlainTextDrawsGlyph(v: Vt, glyph: Glyph, ch: byte)
    requires Consistent(v) && v.scan.next == NormalText
    requires !IsControl(ch) && ch != ESC && v.term.col + 1 < v.term.columns
    ensures var r := Feed(v, glyph, ch); var t := v.term;
      && r.term == t.(col := t.col + 1) && r.scan == v.scan && r.out == v.out
      && Rectangular(r.img, t.pitch) && |r.img| == |v.img|
      && CellInside(r.img, CellTop(t), CellLeft(t), t.fontHeight, t.fontWidth)
      && ReadCell(r.img, CellTop(t), CellLeft(t), t.fontHeight, t.fontWidth)
           == GlyphCell(glyph, ch, t.fontHeight, t.fontWidth, t.attrs)
      && (forall i, j | 0 <= i < |v.img| && 0 <= j < |v.img[i]|
            && !(CellTop(t) <= i < CellTop(t) + t.fontHeight && CellLeft(t) <= j < CellLeft(t) + t.fontWidth)
            :: r.img[i][j] == v.img[i][j])
  {
    var t := v.term;
    CursorCellInside(v);
    var p := GlyphCell(glyph, ch, t.fontHeight, t.fontWidth, t.attrs);
    var w := Control(v, glyph, ch);
    assert Advance(v.scan, ch) == (v.scan, Plot(ch));
    assert w == Putc(v, glyph, ch);
    assert w.img == WriteCell(v.img, CellTop(t), CellLeft(t), t.fontHeight, t.fontWidth, p);
    ReadAfterWrite(v.img, CellTop(t), CellLeft(t), t.fontHeight, t.fontWidth, p);
    assert p[..t.fontHeight * t.fontWidth] == p;
    assert v.out + [] == v.out;
  }

  /**
   * Bytes that are neither control characters nor the end of anything the
   * scanner acts on only move the scanner.
   */
  lemma {:induction false} QuietBytes(v: Vt, glyph: Glyph, bytes: seq<byte>)
    requires Consistent(v)
    requires forall k | 0 <= k < |bytes| :: !IsControl(bytes[k])
    requires forall k | 0 <= k < |bytes| :: ScanAll(v.scan, bytes).1[k] == Nothing
    ensures FeedAll(v, glyph, bytes) == v.(scan := ScanAll(v.scan, bytes).0)
    decreases |bytes|
  {
    if bytes != [] {
      var init := bytes[..|bytes| - 1];
      var b := bytes[|bytes| - 1];
      assert bytes == init + [b];
      ScanAllSnoc(v.scan, init, b);
      var (s, acts) := ScanAll(v.scan, init);
      assert ScanAll(v.scan, bytes) == (Advance(s, b).0, acts + [Advance(s, b).1]);
      forall k | 0 <= k < |init|
        ensures ScanAll(v.scan, init).1[k] == Nothing
      {
        assert ScanAll(v.scan, bytes).1[k] == acts[k];
      }
      QuietBytes(v, glyph, init);
      var u := v.(scan := s);
      assert Advance(s, b).1 == ScanAll(v.scan, bytes).1[|bytes| - 1];
      var w := Control(u, glyph, b);
      assert w == u.(scan := Advance(s, b).0);
      assert v.out + [] == v.out;
    }
  }

  /**
   * End to end: in normal text, `ESC [ p1 ; ... ; pn F` fed one byte at a
   * time does exactly what the final letter `F` does with the parameters
   * written (terminal state, frame buffer and reply), and leaves the
   * scanner back in normal text.
   */
  lemma ControlSequence(v: Vt, glyph: Glyph, ps: seq<u32>, final: byte)
    requires Consistent(v) && v.scan.next == NormalText
    requires 1 <= |ps| <= MAX_PARAMS
    requires !IsDigit(final) && final != ';' as int && !IsControl(final)
    ensures var bytes := [ESC, '[' as int] + EncodeParams(ps) + [final];
      var r := FeedAll(v, glyph, bytes);
      var o := Tty.Final(v.term, final, ps, 0);
      && r.scan.next == NormalText && r.scan.size == 0
      && r.term == o.term && r.out == v.out + o.reply
      && Fits(v.img, o.effect) && r.img == Apply(v.img, o.effect)
  {
    var body := [ESC, '[' as int] + EncodeParams(ps);
    var bytes := body + [final];
    ControlSequenceRoundTrip(v.scan, ps, final);
    EncodeParamsQuiet(ps);
    ScanAllSnoc(v.scan, body, final);
    var (s, acts) := ScanAll(v.scan, body);
    PrefixQuiet(v.scan, ps);
    QuietBytes(v, glyph, body);
    var u := v.(scan := s);
    assert FeedAll(v, glyph, bytes) == Feed(u, glyph, final) by {
      assert bytes[..|bytes| - 1] == body;
    }
    assert Advance(s, final).1 == Dispatch(final, ps, 0);
    FinalThenOverflow(u, glyph, final, ps, 0);
  }

  /**
   * End to end, without parameters: in normal text, `ESC [ F` does exactly
   * what the final letter `F` does with no parameters, and leaves the
   * scanner back in normal text.
   */
  lemma BareControlSequence(v: Vt, glyph: Glyph, final: byte)
    requires Consistent(v) && v.scan.next == NormalText
    requires !IsDigit(final) && final != '?' as int && final != '#' as int && !IsControl(final)
    ensures var r := FeedAll(v, glyph, [ESC, '[' as int, final]);
      var o := Tty.Final(v.term, final, [], 0);
      && r.scan.next == NormalText && r.scan.size == 0
      && r.term == o.term && r.out == v.out + o.reply
      && Fits(v.img, o.effect) && r.img == Apply(v.img, o.effect)
  {
    var bytes := [ESC, '[' as int, final];
    var s1 := Advance(v.scan, ESC).0;
    var s2 := Advance(s1, '[' as int).0;
    assert s2.next == SelectEscape && s2.size == 0 && s2.privateMode == 0;
    assert Advance(s2, final) == (s2.(size := 0, next := NormalText), Dispatch(final, [], 0));
    var w1 := Feed(v, glyph, ESC);
    assert w1 == v.(scan := s1) by {
      assert Advance(v.scan, ESC) == (s1, Nothing);
      assert v.out + [] == v.out;
    }
    var w2 := Feed(w1, glyph, '[' as int);
    assert w2 == v.(scan := s2) by {
      assert Advance(s1, '[' as int) == (s2, Nothing);
      assert v.out + [] == v.out;
    }
    assert FeedAll(v, glyph, bytes) == Feed(w2, glyph, final) by {
      assert bytes[..2][..1] == [ESC];
      assert FeedAll(v, glyph, bytes[..2][..1]) == w1 by {
        assert [ESC][..0] == [];
      }
    }
    FinalThenOverflow(w2, glyph, final, [], 0);
  }

  /**
   * End to end, with the private marker: in normal text,
   * `ESC [ ? p1 ; ... ; pn F` fed one byte at a time does exactly what `F`
   * does with those parameters and the `?` marker.
   */
  lemma PrivateControlSequence(v: Vt, glyph: Glyph, ps: seq<u32>, final: byte)
    requires Consistent(v) && v.scan.next == NormalText
    requires 1 <= |ps| <= MAX_PARAMS
    requires !IsDigit(final) && final != ';' as int && !IsControl(final)
    ensures var bytes := [ESC, '[' as int, '?' as int] + EncodeParams(ps) + [final];
      var r := FeedAll(v, glyph, bytes);
      var o := Tty.Final(v.term, final, ps, '?' as int);
      && r.scan.next == NormalText && r.scan.size == 0
      && r.term == o.term && r.out == v.out + o.reply
      && Fits(v.img, o.effect) && r.img == Apply(v.img, o.effect)
  {
    var body := [ESC, '[' as int, '?' as int] + EncodeParams(ps);
    var bytes := body + [final];
    PrivateSequenceRoundTrip(v.scan, ps, final);
    EncodeParamsQuiet(ps);
    ScanAllSnoc(v.scan, body, final);
    var (s, acts) := ScanAll(v.scan, body);
    PrivatePrefixQuiet(v.scan, ps);
    QuietBytes(v, glyph, body);
    var u := v.(scan := s);
    assert FeedAll(v, glyph, bytes) == Feed(u, glyph, final) by {
      assert bytes[..|bytes| - 1] == body;
    }
    assert Advance(s, final).1 == Dispatch(final, ps, '?' as int);
    FinalThenOverflow(u, glyph, final, ps, '?' as int);
  }

  /**
   * DECSET / DECRST end to end: `ESC [ ? 7 h` / `l` switches wraparound on
   * / off and `ESC [ ? 25 h` / `l` shows / hides the cursor; nothing is
   * drawn or sent, and no other field changes.
   */
  lemma ModeSequence(v: Vt, glyph: Glyph, mode: u32, on: bool)
    requires Consistent(v) && v.scan.next == NormalText
    requires mode == 7 || mode == 25
    ensures var r := FeedAll(v, glyph, [ESC, '[' as int, '?' as int] + EncodeParams([mode]) + [if on then 'h' as int else 'l' as int]);
      && r.scan.next == NormalText && r.img == v.img && r.out == v.out
      && r.term == if mode == 7 then v.term.(wraparound := on) else v.term.(cursorVisible := on)
  {
    var final := if on then 'h' as int else 'l' as int;
    PrivateControlSequence(v, glyph, [mode], final);
    SetModeOutcomes(v.term, on, [mode], '?' as int);
    assert Tty.Final(v.term, final, [mode], '?' as int) == Outcome(SetMode(v.term, on, [mode], '?' as int), NoEffect, []);
    assert v.out + [] == v.out;
  }

  /** Until the final letter, a private control sequence yields no action. */
  lemma PrivatePrefixQuiet(s: ScanState, ps: seq<u32>)
    requires Wellformed(s) && s.next == NormalText && 1 <= |ps| <= MAX_PARAMS
    ensures var body := [ESC, '[' as int, '?' as int] + EncodeParams(ps);
      forall k | 0 <= k < |body| :: ScanAll(s, body).1[k] == Nothing
  {
    var xs := EncodeParams(ps);
    var s1 := Advance(s, ESC).0;
    var s2 := Advance(s1, '[' as int).0;
    var s3 := Advance(s2, '?' as int).0;
    ScanPrivateOpening(s, xs);
    ScanParams(s3, ps);
    var r2: seq<byte> := ['?' as int] + xs;
    var r1: seq<byte> := ['[' as int] + r2;
    ScanAllCons(s2, '?' as int, xs);
    ScanAllCons(s1, '[' as int, r2);
    ScanAllCons(s, ESC, r1);
    assert [ESC, '[' as int, '?' as int] + xs == [ESC] + r1;
    assert ScanAll(s, [ESC] + r1).1 == [Nothing, Nothing, Nothing] + ScanAll(s3, xs).1;
  }

  /**
   * A final letter that completes a sequence: the command's outcome is
   * carried out, and the column check after it changes nothing, because
   * every command leaves the cursor on the grid.
   */
  lemma FinalThenOverflow(v: Vt, glyph: Glyph, final: byte, ps: seq<u32>, privateMode: byte)
    requires Consistent(v) && !IsControl(final)
    requires Advance(v.scan, final).1 == Dispatch(final, ps, privateMode)
    ensures var r := Feed(v, glyph, final);
      var o := Tty.Final(v.term, final, ps, privateMode);
      && r.scan == Advance(v.scan, final).0
      && r.term == o.term && r.out == v.out + o.reply
      && Fits(v.img, o.effect) && r.img == Apply(v.img, o.effect)
  {
    var o := Tty.Final(v.term, final, ps, privateMode);
    var w := Control(v, glyph, final);
    assert w == Perform(v.(scan := Advance(v.scan, final).0), o);
    assert ColumnOverflow(w.term) == Outcome(w.term, NoEffect, []);
    assert (v.out + o.reply) + [] == v.out + o.reply;
  }

  /** The bytes of an encoded parameter list are digits and `;`. */
  lemma {:induction false} EncodeParamsQuiet(ps: seq<u32>)
    requires |ps| >= 1
    ensures forall k | 0 <= k < |EncodeParams(ps)| :: IsDigit(EncodeParams(ps)[k]) || EncodeParams(ps)[k] == ';' as int
    decreases |ps|
  {
    if |ps| > 1 {
      EncodeParamsQuiet(ps[1..]);
      var ds := Decimal(ps[0]);
      assert EncodeParams(ps) == ds + [';' as int] + EncodeParams(ps[1..]);
    }
  }

  /** Until the final letter, a control sequence yields no action. */
  lemma PrefixQuiet(s: ScanState, ps: seq<u32>)
    requires Wellformed(s) && s.next == NormalText && 1 <= |ps| <= MAX_PARAMS
    ensures var body := [ESC, '[' as int] + EncodeParams(ps);
      forall k | 0 <= k < |body| :: ScanAll(s, body).1[k] == Nothing
  {
    var body := [ESC, '[' as int] + EncodeParams(ps);
    var s1 := Advance(s, ESC).0;
    var s2 := Advance(s1, '[' as int).0;
    var s' := s2.(next := ReadDigit, size := 1, params := s2.params[0 := 0]);
    EncodeParamsStartsWithDigit(ps);
    FirstDigit(s2, EncodeParams(ps));
    ScanParams(s', ps);
    ScanAllCons(s1, '[' as int, EncodeParams(ps));
    ScanAllCons(s, ESC, ['[' as int] + EncodeParams(ps));
    assert body == [ESC] + (['[' as int] + EncodeParams(ps));
  }
}
