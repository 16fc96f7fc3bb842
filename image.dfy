/**
 * The framebuffer as a value: a sequence of pixel rows, each `pitch`
 * bytes long. These functions give the meaning of the blit primitives
 * (fill, block move, scroll, glyph cell write and read) that the
 * terminal's methods carry out in place.
 */
module Image {
  import opened Bytes

  type Image = seq<seq<byte>>

  /** Every row has `pitch` bytes. */
  predicate Rectangular(img: Image, pitch: nat)
  {
    forall i | 0 <= i < |img| :: |img[i]| == pitch
  }

  /** Rows `lo..hi` set to colour `c` over their whole pitch. */
  function FillRows(img: Image, lo: nat, hi: nat, c: byte): (r: Image)
    ensures |r| == |img|
    ensures forall i | 0 <= i < |img| :: |r[i]| == |img[i]|
  {
    seq(|img|, i requires 0 <= i < |img| =>
      if lo <= i < hi then seq(|img[i]|, _ => c) else img[i])
  }

  /** Columns `left..left+w` of rows `top..top+h` set to colour `c`. */
  function FillArea(img: Image, top: nat, left: nat, h: nat, w: nat, c: byte): (r: Image)
    ensures |r| == |img|
    ensures forall i | 0 <= i < |img| :: |r[i]| == |img[i]|
  {
    seq(|img|, i requires 0 <= i < |img| =>
      if top <= i < top + h then
        seq(|img[i]|, j requires 0 <= j < |img[i]| => if left <= j < left + w then c else img[i][j])
      else img[i])
  }

  /** Rows `dst..dst+count` replaced by rows `src..src+count` of the same image. */
  function MoveRows(img: Image, dst: nat, src: nat, count: nat): (r: Image)
    requires src + count <= |img| && dst + count <= |img|
    ensures |r| == |img|
    ensures forall i | 0 <= i < |img| :: r[i] == if dst <= i < dst + count then img[src + i - dst] else img[i]
  {
    seq(|img|, i requires 0 <= i < |img| =>
      if dst <= i < dst + count then img[src + i - dst] else img[i])
  }

  /**
   * Scroll rows `lo..hi` up by `k` pixel rows: what was `k` rows lower
   * moves up, the bottom `k` rows become colour `c`.
   */
  function ScrollUpRows(img: Image, lo: nat, hi: nat, k: nat, c: byte): (r: Image)
    requires lo + k <= hi <= |img|
    ensures |r| == |img| && forall n: nat | Rectangular(img, n) :: Rectangular(r, n)
  {
    FillRows(MoveRows(img, lo, lo + k, hi - lo - k), hi - k, hi, c)
  }

  /** Scroll rows `lo..hi` down by `k` pixel rows; the top `k` rows become colour `c`. */
  function ScrollDownRows(img: Image, lo: nat, hi: nat, k: nat, c: byte): (r: Image)
    requires lo + k <= hi <= |img|
    ensures |r| == |img| && forall n: nat | Rectangular(img, n) :: Rectangular(r, n)
  {
    FillRows(MoveRows(img, lo + k, lo, hi - lo - k), lo, lo + k, c)
  }

  /**
   * Where each row of an upward scroll comes from: rows outside the range
   * are kept, row `i` of the range takes row `i + k`, and the bottom `k`
   * rows of the range are filled.
   */
  lemma ScrollUpRowsPlaces(img: Image, lo: nat, hi: nat, k: nat, c: byte)
    requires lo + k <= hi <= |img|
    ensures var r := ScrollUpRows(img, lo, hi, k, c);
      && (forall i | 0 <= i < |img| && !(lo <= i < hi) :: r[i] == img[i])
      && (forall i | lo <= i < hi - k :: r[i] == img[i + k])
      && (forall i, j | hi - k <= i < hi && 0 <= j < |r[i]| :: r[i][j] == c)
  {
    var moved := MoveRows(img, lo, lo + k, hi - lo - k);
    var r := ScrollUpRows(img, lo, hi, k, c);
    assert r == FillRows(moved, hi - k, hi, c);
    forall i | lo <= i < hi - k
      ensures r[i] == img[i + k]
    {
      assert r[i] == moved[i];
    }
  }

  /**
   * Where each row of a downward scroll comes from: rows outside the range
   * are kept, row `i` of the range below its top `k` takes row `i - k`, and
   * the top `k` rows are filled.
   */
  lemma ScrollDownRowsPlaces(img: Image, lo: nat, hi: nat, k: nat, c: byte)
    requires lo + k <= hi <= |img|
    ensures var r := ScrollDownRows(img, lo, hi, k, c);
      && (forall i | 0 <= i < |img| && !(lo <= i < hi) :: r[i] == img[i])
      && (forall i | lo + k <= i < hi :: r[i] == img[i - k])
      && (forall i, j | lo <= i < lo + k && 0 <= j < |r[i]| :: r[i][j] == c)
  {
    var moved := MoveRows(img, lo + k, lo, hi - lo - k);
    var r := ScrollDownRows(img, lo, hi, k, c);
    assert r == FillRows(moved, lo, lo + k, c);
    forall i | lo + k <= i < hi
      ensures r[i] == img[i - k]
    {
      assert r[i] == moved[i];
    }
  }

  /** Pixel (y, x) of a cell `w` pixels wide is byte `y * w + x` of its packed form. */
  lemma CellIndex(y: nat, x: nat, h: nat, w: nat)
    requires y < h && x < w
    ensures y * w + x < h * w
  {
    assert (y + 1) * w <= h * w;
  }

  /** Pixel (y, x) of the packed `h`-by-`w` cell `p`. */
  function CellPixel(p: seq<byte>, h: nat, w: nat, y: nat, x: nat): byte
    requires y < h && x < w && h * w <= |p|
  {
    CellIndex(y, x, h, w);
    p[y * w + x]
  }

  /** Write the packed `h`-by-`w` cell `p` with its top left corner at row `top`, column `left`. */
  function WriteCell(img: Image, top: nat, left: nat, h: nat, w: nat, p: seq<byte>): (r: Image)
    requires h * w <= |p|
    ensures |r| == |img|
    ensures forall i | 0 <= i < |img| :: |r[i]| == |img[i]|
    ensures forall i | 0 <= i < |img| && !(top <= i < top + h) :: r[i] == img[i]
    ensures forall i, j | top <= i < top + h && i < |img| && 0 <= j < |img[i]| && !(left <= j < left + w) ::
      r[i][j] == img[i][j]
  {
    seq<seq<byte>>(|img|, i requires 0 <= i < |img| =>
      if top <= i < top + h then
        seq<byte>(|img[i]|, j requires 0 <= j < |img[i]| =>
          var v: byte := if left <= j < left + w then CellPixel(p, h, w, i - top, j - left) else img[i][j]; v)
      else img[i])
  }

  /** The `h`-by-`w` cell at row `top`, column `left` lies inside the image. */
  predicate CellInside(img: Image, top: nat, left: nat, h: nat, w: nat)
  {
    top + h <= |img| && forall i | top <= i < top + h :: left + w <= |img[i]|
  }

  /** Read the `h`-by-`w` cell at row `top`, column `left`, packed row after row. */
  function ReadCell(img: Image, top: nat, left: nat, h: nat, w: nat): (p: seq<byte>)
    requires CellInside(img, top, left, h, w)
    ensures |p| == h * w
  {
    seq(h * w, k requires 0 <= k < h * w =>
      CellCoordinates(k, h, w);
      img[top + k / w][left + k % w])
  }

  /** Byte `y * w + x` of a cell read is pixel (y, x) of the cell. */
  lemma ReadCellAt(img: Image, top: nat, left: nat, h: nat, w: nat, y: nat, x: nat)
    requires CellInside(img, top, left, h, w) && y < h && x < w
    ensures y * w + x < h * w
    ensures ReadCell(img, top, left, h, w)[y * w + x] == img[top + y][left + x]
  {
    CellIndex(y, x, h, w);
    CellIndexInverse(y, x, w);
  }

  lemma CellCoordinates(k: nat, h: nat, w: nat)
    requires k < h * w
    ensures w > 0 && k / w < h && k % w < w
  {
    assert w != 0;
    var q := k / w;
    MulLe(h, q, w);
    assert q * w <= k;
  }

  /** Multiplication by a natural number is monotone. */
  lemma MulLe(a: int, b: int, c: nat)
    ensures a <= b ==> a * c <= b * c
  {
  }

  /** Packed index and pixel coordinates correspond one to one. */
  lemma CellIndexInverse(y: nat, x: nat, w: nat)
    requires x < w
    ensures (y * w + x) / w == y && (y * w + x) % w == x
  {
    var n := y * w + x;
    var q := n / w;
    var r := n % w;
    assert q * w + r == y * w + x;
    MulLe(q + 1, y, w);
    MulLe(y + 1, q, w);
    assert (q + 1) * w == q * w + w && (y + 1) * w == y * w + w;
  }

  /** Reading a cell just written gives back what was written. */
  lemma ReadAfterWrite(img: Image, top: nat, left: nat, h: nat, w: nat, p: seq<byte>)
    requires h * w <= |p| && CellInside(img, top, left, h, w)
    ensures CellInside(WriteCell(img, top, left, h, w, p), top, left, h, w)
    ensures ReadCell(WriteCell(img, top, left, h, w, p), top, left, h, w) == p[..h * w]
  {
    var img' := WriteCell(img, top, left, h, w, p);
    var q := ReadCell(img', top, left, h, w);
    forall k | 0 <= k < h * w
      ensures q[k] == p[k]
    {
      CellCoordinates(k, h, w);
      var y, x := k / w, k % w;
      assert k == y * w + x;
      CellIndexInverse(y, x, w);
      assert q[k] == CellPixel(p, h, w, y, x);
    }
  }

  /** Writing back a cell that was just read leaves the image as it was. */
  lemma WriteWhatWasRead(img: Image, top: nat, left: nat, h: nat, w: nat)
    requires CellInside(img, top, left, h, w)
    ensures WriteCell(img, top, left, h, w, ReadCell(img, top, left, h, w)) == img
  {
    var p := ReadCell(img, top, left, h, w);
    var img' := WriteCell(img, top, left, h, w, p);
    forall i | 0 <= i < |img|
      ensures img'[i] == img[i]
    {
      if top <= i < top + h {
        forall j | 0 <= j < |img[i]|
          ensures img'[i][j] == img[i][j]
        {
          if left <= j < left + w {
            CellIndex(i - top, j - left, h, w);
            CellIndexInverse(i - top, j - left, w);
          }
        }
      }
    }
  }

  /** Writing the same cell twice is the same as writing it once. */
  lemma WriteCellIdempotent(img: Image, top: nat, left: nat, h: nat, w: nat, p: seq<byte>)
    requires h * w <= |p|
    ensures WriteCell(WriteCell(img, top, left, h, w, p), top, left, h, w, p) == WriteCell(img, top, left, h, w, p)
  {
    var once := WriteCell(img, top, left, h, w, p);
    var twice := WriteCell(once, top, left, h, w, p);
    forall i | 0 <= i < |img|
      ensures twice[i] == once[i]
    {
    }
  }

  /**
   * Scrolling a region up and then down by the same amount restores every
   * row except the top `k`, which were pushed out and come back in the
   * background colour.
   */
  lemma ScrollUpThenDown(img: Image, lo: nat, hi: nat, k: nat, c: byte)
    requires lo + k <= hi <= |img|
    ensures var r := ScrollDownRows(ScrollUpRows(img, lo, hi, k, c), lo, hi, k, c);
      |r| == |img|
      && (forall i | 0 <= i < |img| && !(lo <= i < lo + k) :: r[i] == img[i])
      && (forall i, j | lo <= i < lo + k && 0 <= j < |r[i]| :: r[i][j] == c)
  {
    var r := ScrollDownRows(ScrollUpRows(img, lo, hi, k, c), lo, hi, k, c);
    forall i | 0 <= i < |img| && !(lo <= i < lo + k)
      ensures r[i] == img[i]
    {
      RowRestored(img, lo, hi, k, c, i);
    }
    forall i, j | lo <= i < lo + k && 0 <= j < |r[i]|
      ensures r[i][j] == c
    {
      RowFilled(img, lo, hi, k, c, i);
    }
  }

  /** A row outside the top `k` comes back after scrolling up and down. */
  lemma RowRestored(img: Image, lo: nat, hi: nat, k: nat, c: byte, i: nat)
    requires lo + k <= hi <= |img| && i < |img| && !(lo <= i < lo + k)
    ensures ScrollDownRows(ScrollUpRows(img, lo, hi, k, c), lo, hi, k, c)[i] == img[i]
  {
    var moved := MoveRows(img, lo, lo + k, hi - lo - k);
    var up := FillRows(moved, hi - k, hi, c);
    var back := MoveRows(up, lo + k, lo, hi - lo - k);
    assert ScrollDownRows(up, lo, hi, k, c)[i] == back[i];
    if lo + k <= i < hi {
      assert back[i] == up[i - k];
      assert up[i - k] == moved[i - k];
    } else {
      assert back[i] == up[i] == moved[i];
    }
  }

  /** A row among the top `k` comes back in the fill colour. */
  lemma RowFilled(img: Image, lo: nat, hi: nat, k: nat, c: byte, i: nat)
    requires lo + k <= hi <= |img| && lo <= i < lo + k
    ensures var r := ScrollDownRows(ScrollUpRows(img, lo, hi, k, c), lo, hi, k, c);
      forall j | 0 <= j < |r[i]| :: r[i][j] == c
  {
  }

  /**
   * Moving a block of rows down one piece at a time, lowest piece first:
   * moving `h` more rows just above an already moved block extends it.
   */
  lemma MoveRowsExtendAbove(img: Image, dst: nat, src: nat, n: nat, h: nat)
    requires src <= dst && dst + h + n <= |img|
    ensures MoveRows(MoveRows(img, dst + h, src + h, n), dst, src, h) == MoveRows(img, dst, src, h + n)
  {
    var inner := MoveRows(img, dst + h, src + h, n);
    var outer := MoveRows(inner, dst, src, h);
    var whole := MoveRows(img, dst, src, h + n);
    forall i | 0 <= i < |img|
      ensures outer[i] == whole[i]
    {
    }
  }
}
