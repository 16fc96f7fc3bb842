/**
 * The geometry manager: how many text lines fit on the panel for a given
 * glyph height, how wide the top and bottom border is, and the arithmetic
 * helpers that go with it (the font-height cycle, the three-digit decimal
 * encoder of the cursor-position report, the clipping of a fill rectangle).
 */
module Geometry {
  import opened Bytes

  /** The glyph heights for which a font table exists. */
  predicate SupportedFontHeight(h: int) { h == 8 || h == 14 || h == 16 || h == 20 }

  /** Glyph cell width: the 20-pixel font is 10 wide, all others 8. */
  function FontWidth(h: int): (w: nat)
    ensures w == 8 || w == 10
    ensures SupportedFontHeight(h) ==> w * h <= 200
  {
    if h == 20 then 10 else 8
  }

  /** The font height selected by the toggle. */
  function NextFontHeight(h: int): (n: nat)
    ensures SupportedFontHeight(n)
  {
    if h == 8 then 14 else if h == 14 then 16 else if h == 16 then 20 else 8
  }

  /** Toggling visits the four supported heights in turn and comes back after four steps. */
  lemma ToggleCycle(h: int)
    requires SupportedFontHeight(h)
    ensures NextFontHeight(NextFontHeight(NextFontHeight(NextFontHeight(h)))) == h
    ensures h != NextFontHeight(h) && h != NextFontHeight(NextFontHeight(h))
    ensures h != NextFontHeight(NextFontHeight(NextFontHeight(h)))
  {
  }

  /** The configured line limit, reduced to what fits at glyph height `h`. */
  function ClampLineLimit(lineLimit: nat, fullHeight: nat, h: nat): (l: nat)
    requires h > 0
    ensures l <= lineLimit && l <= fullHeight / h
    ensures l == lineLimit || l == fullHeight / h
  {
    WholeLines(fullHeight, h);
    Min(lineLimit, fullHeight / h)
  }

  /**
   * The active drawing area: number of text lines, top/bottom border in
   * pixel rows, active height in pixel rows and number of terminal rows.
   */
  datatype Layout = Layout(lines: nat, border: nat, height: nat, rows: nat)

  function ScreenLayout(fullHeight: nat, fontHeight: nat, lineLimit: nat): (g: Layout)
    requires 0 < fontHeight <= fullHeight
    ensures 2 * g.border + g.height == fullHeight
    ensures g.rows * fontHeight <= g.height
    ensures g.lines <= fullHeight / fontHeight
    ensures lineLimit > 0 ==> g.lines <= lineLimit
  {
    var lines := LayoutLines(fullHeight, fontHeight, lineLimit);
    var border := LayoutBorder(fullHeight, fontHeight, lineLimit, lines);
    var height := fullHeight - 2 * border;
    WholeLines(height, fontHeight);
    Layout(lines, border, height, height / fontHeight)
  }

  /** The number of text lines: the line limit when one is set and fits, otherwise all that fit. */
  function LayoutLines(fullHeight: nat, fontHeight: nat, lineLimit: nat): (lines: nat)
    requires 0 < fontHeight
    ensures lines * fontHeight <= fullHeight && lines <= fullHeight / fontHeight
    ensures lineLimit > 0 ==> lines <= lineLimit
  {
    var allLines := fullHeight / fontHeight;
    var lines := if lineLimit > 0 && lineLimit < allLines then lineLimit else allLines;
    LinesFit(fullHeight, fontHeight, lines);
    lines
  }

  /**
   * The border: half the slack left by the lines; without a line limit and
   * with no slack to split, half a glyph instead.
   */
  function LayoutBorder(fullHeight: nat, fontHeight: nat, lineLimit: nat, lines: nat): (border: nat)
    requires fontHeight <= fullHeight && lines * fontHeight <= fullHeight
    ensures 2 * border <= fullHeight
  {
    var border0 := (fullHeight - lines * fontHeight) / 2;
    if lineLimit == 0 && border0 == 0 then fontHeight / 2 else border0
  }

  /** The whole lines of height `d` in `n` pixel rows take no more than `n` rows. */
  lemma WholeLines(n: nat, d: nat)
    requires d > 0
    ensures 0 <= n / d && (n / d) * d <= n
  {
    assert n == (n / d) * d + n % d;
  }

  lemma LinesFit(fullHeight: nat, fontHeight: nat, lines: nat)
    requires 0 < fontHeight && lines <= fullHeight / fontHeight
    ensures lines * fontHeight <= fullHeight
  {
    assert (fullHeight / fontHeight) * fontHeight <= fullHeight;
    MulMonotone(lines, fullHeight / fontHeight, fontHeight);
  }

  lemma MulMonotone(a: nat, b: nat, c: nat)
    requires a <= b
    ensures a * c <= b * c
  {
  }

  /** A line limit that fits is honoured exactly, with the slack split evenly above and below. */
  lemma LimitedLayout(fullHeight: nat, fontHeight: nat, lineLimit: nat)
    requires 2 <= fontHeight <= fullHeight
    requires 0 < lineLimit <= fullHeight / fontHeight
    ensures ScreenLayout(fullHeight, fontHeight, lineLimit).rows == lineLimit
    ensures ScreenLayout(fullHeight, fontHeight, lineLimit).border == (fullHeight - lineLimit * fontHeight) / 2
  {
    var g := ScreenLayout(fullHeight, fontHeight, lineLimit);
    assert g.lines == lineLimit;
    LinesFit(fullHeight, fontHeight, lineLimit);
    var slack := fullHeight - lineLimit * fontHeight;
    assert g.border == slack / 2;
    assert g.height == lineLimit * fontHeight + slack % 2;
    DivExact(lineLimit, fontHeight, slack % 2);
  }

  /** `(q * d + r) / d == q` for a remainder `r` smaller than `d`. */
  lemma DivExact(q: nat, d: nat, r: nat)
    requires 0 <= r < d
    ensures (q * d + r) / d == q
  {
    var n := q * d + r;
    var q' := n / d;
    var r' := n % d;
    assert q' * d + r' == q * d + r;
    if q' < q {
      MulMonotone(q' + 1, q, d);
      assert false;
    } else if q' > q {
      MulMonotone(q + 1, q', d);
      assert false;
    }
  }

  /**
   * Without a line limit every whole line that fits is used; when the slack
   * left over is under two pixel rows, a margin of half a glyph is forced
   * at top and bottom, which costs exactly one line.
   */
  lemma UnlimitedLayout(fullHeight: nat, fontHeight: nat)
    requires 2 <= fontHeight <= fullHeight
    ensures var g := ScreenLayout(fullHeight, fontHeight, 0);
      && g.border >= 1
      && (fullHeight % fontHeight >= 2 ==>
            g.rows == fullHeight / fontHeight && g.border == fullHeight % fontHeight / 2)
      && (fullHeight % fontHeight < 2 ==>
            g.rows == fullHeight / fontHeight - 1 && g.border == fontHeight / 2)
  {
    var g := ScreenLayout(fullHeight, fontHeight, 0);
    var lines := fullHeight / fontHeight;
    var r := fullHeight % fontHeight;
    assert fullHeight == lines * fontHeight + r;
    assert g.lines == lines;
    if r >= 2 {
      assert g.border == r / 2;
      assert g.height == lines * fontHeight + r % 2;
      DivExact(lines, fontHeight, r % 2);
    } else {
      assert g.border == fontHeight / 2;
      assert lines >= 1;
      assert g.height == (lines - 1) * fontHeight + (fontHeight % 2 + r);
      DivExact(lines - 1, fontHeight, fontHeight % 2 + r);
    }
  }

  /**
   * With room for three glyphs and a line limit other than one, the screen
   * has at least two rows (so a scrolling region of two rows always exists).
   */
  lemma AtLeastTwoRows(fullHeight: nat, fontHeight: nat, lineLimit: nat)
    requires 2 <= fontHeight && 3 * fontHeight <= fullHeight
    requires lineLimit != 1 && lineLimit <= fullHeight / fontHeight
    ensures ScreenLayout(fullHeight, fontHeight, lineLimit).rows >= 2
  {
    DivExact(3, fontHeight, 0);
    assert fullHeight / fontHeight >= 3 by {
      DivMonotone(3 * fontHeight, fullHeight, fontHeight);
    }
    if lineLimit == 0 {
      UnlimitedLayout(fullHeight, fontHeight);
    } else {
      LimitedLayout(fullHeight, fontHeight, lineLimit);
    }
  }

  lemma DivMonotone(a: nat, b: nat, d: nat)
    requires a <= b && d > 0
    ensures a / d <= b / d
  {
    if a / d > b / d {
      MulMonotone(b / d + 1, a / d, d);
      assert false;
    }
  }

  /**
   * The three ASCII decimal digits (hundreds, tens, units) of a byte, as
   * written by `b2s` into the cursor-position report.
   */
  function ThreeDigits(n: byte): (d: seq<byte>)
    ensures |d| == 3
    ensures forall k | 0 <= k < 3 :: IsDigit(d[k])
    ensures DigitValue(d[0]) * 100 + DigitValue(d[1]) * 10 + DigitValue(d[2]) == n
  {
    ['0' as int + n / 100, '0' as int + n % 100 / 10, '0' as int + n % 10]
  }

  /** `b2s`: write the three digits of `n` into `b` at offset `at`, nothing else. */
  method B2s(b: array<byte>, at: nat, n: byte)
    requires at + 3 <= b.Length
    modifies b
    ensures b[at..at + 3] == ThreeDigits(n)
    ensures forall k | 0 <= k < b.Length && !(at <= k < at + 3) :: b[k] == old(b[k])
  {
    var m := n;
    b[at] := '0' as int + m / 100;
    m := m - 100 * (m / 100);
    b[at + 1] := '0' as int + m / 10;
    m := m - 10 * (m / 10);
    b[at + 2] := '0' as int + m;
  }

  /** A rectangle of pixels: columns `x..x+w`, rows `y..y+h`. */
  datatype Rect = Rect(x: nat, y: nat, w: nat, h: nat)

  predicate Covers(r: Rect, px: int, py: int)
  {
    r.x <= px < r.x + r.w && r.y <= py < r.y + r.h
  }

  /**
   * The clipping of `gfx_fill_rect`: nothing is drawn when the corner lies
   * outside the surface, otherwise width and height are cut back to the
   * surface edge. The sums are 32-bit unsigned, so a request whose far edge
   * overflows is not cut back.
   */
  function ClipRect(x: u32, y: u32, w: u32, h: u32, width: u32, height: u32): (r: Option<Rect>)
    ensures r.None? <==> x >= width || y >= height
    ensures r.Some? ==> r.value.x == x && r.value.y == y
    ensures r.Some? && x + w < U32_MODULUS ==> r.value.x + r.value.w <= width
    ensures r.Some? && y + h < U32_MODULUS ==> r.value.y + r.value.h <= height
  {
    if x >= width || y >= height then None
    else
      var w' := if (x + w) % U32_MODULUS > width then width - x else w;
      var h' := if (y + h) % U32_MODULUS > height then height - y else h;
      Some(Rect(x, y, w', h'))
  }

  /** When the edges do not overflow, the clipped rectangle is exactly the part of the request on the surface. */
  lemma ClipIsIntersection(x: u32, y: u32, w: u32, h: u32, width: u32, height: u32, px: int, py: int)
    requires x + w < U32_MODULUS && y + h < U32_MODULUS
    ensures var r := ClipRect(x, y, w, h, width, height);
      (r.Some? && Covers(r.value, px, py)) <==>
      (Covers(Rect(x, y, w, h), px, py) && 0 <= px < width && 0 <= py < height)
  {
  }
}
