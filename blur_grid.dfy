/** Geometry of the blur's flat, row-major pixel buffer of w columns and h rows, and of the
    lines (one row, or one column, of a rectangle) that a single pass walks with its cursors. */
module BlurGrid {

  /** The index of pixel (x, y): `y * w + x`. */
  function Idx(w: int, h: int, x: int, y: int): (j: int)
    requires 0 <= x < w && 0 <= y < h
    ensures 0 <= j < w * h
  {
    MulLe(y + 1, h, w);
    y * w + x
  }

  lemma MulLe(a: int, b: int, w: int)
    requires 0 <= a <= b && 0 <= w
    ensures a * w <= b * w
  {
  }

  lemma MulLtCancel(d: int, k: int, j: int)
    requires d > 0 && d * k < d * j
    ensures k < j
  {
  }

  /** Two pixels of the grid have the same index only if they are the same pixel. */
  lemma {:induction false} IdxInjective(w: int, h: int, x1: int, y1: int, x2: int, y2: int)
    requires 0 <= x1 < w && 0 <= y1 < h && 0 <= x2 < w && 0 <= y2 < h
    requires Idx(w, h, x1, y1) == Idx(w, h, x2, y2)
    ensures x1 == x2 && y1 == y2
  {
    var k := y1 - y2;
    assert w * k == x2 - x1;
    MulLtCancel(w, k, 1);
    MulLtCancel(w, -1, k);
  }

  /** Every index of the buffer is the index of exactly the pixel (j % w, j / w). */
  lemma {:induction false} Cell(w: int, h: int, j: int)
    requires 0 <= w && 0 <= h && 0 <= j < w * h
    ensures 0 < w && 0 <= j % w < w && 0 <= j / w < h
    ensures Idx(w, h, j % w, j / w) == j
  {
    MulLe(0, h, w);
    MulPosLt(w, j / w, h, j);
  }

  lemma MulPosLt(w: int, q: int, h: int, j: int)
    requires 0 < w && 0 <= j < w * h && q == j / w
    ensures q < h
  {
  }

  /** The coordinates of a pixel are recovered from its index. */
  lemma {:induction false} IdxDivMod(w: int, h: int, x: int, y: int)
    requires 0 <= x < w && 0 <= y < h
    ensures Idx(w, h, x, y) % w == x && Idx(w, h, x, y) / w == y
  {
    var j := Idx(w, h, x, y);
    Cell(w, h, j);
    IdxInjective(w, h, j % w, j / w, x, y);
  }

  /** A line of a pass: `len` pixels starting at (x0, y0), along a row when `horizontal`
      (cursor stride 1) and down a column otherwise (cursor stride w). */
  datatype Line = Line(x0: int, y0: int, horizontal: bool, len: nat)

  /** The column of the line's i-th pixel. */
  function PX(l: Line, i: int): int {
    if l.horizontal then l.x0 + i else l.x0
  }

  /** The row of the line's i-th pixel. */
  function PY(l: Line, i: int): int {
    if l.horizontal then l.y0 else l.y0 + i
  }

  /** The line lies inside the w-by-h grid. */
  predicate Inside(w: int, h: int, l: Line) {
    0 <= l.x0 && 0 <= l.y0 &&
    if l.horizontal then l.x0 + l.len <= w && l.y0 < h else l.x0 < w && l.y0 + l.len <= h
  }

  /** Pixel (x, y) is one of the line's pixels. */
  predicate OnLine(l: Line, x: int, y: int) {
    if l.horizontal then y == l.y0 && l.x0 <= x < l.x0 + l.len
    else x == l.x0 && l.y0 <= y < l.y0 + l.len
  }

  /** How far the cursors `ti`, `li`, `ri` move per step: 1 along a row, w down a column. */
  function Stride(w: int, l: Line): int {
    if l.horizontal then 1 else w
  }

  /** The buffer index of the line's i-th pixel. */
  function At(w: int, h: int, l: Line, i: int): (j: int)
    requires Inside(w, h, l) && 0 <= i < l.len
    ensures 0 <= j < w * h
  {
    Idx(w, h, PX(l, i), PY(l, i))
  }

  /** Moving k pixels along the line moves the index by k strides: the cursor arithmetic
      `ti += xSkip` / `ti += ySkip * w` lands on the pixel the loop counter names. */
  lemma {:induction false} AtShift(w: int, h: int, l: Line, i: int, k: int)
    requires Inside(w, h, l) && 0 <= i < l.len && 0 <= i + k < l.len
    ensures At(w, h, l, i + k) == At(w, h, l, i) + k * Stride(w, l)
  {
    if !l.horizontal {
      assert (l.y0 + i + k) * w == (l.y0 + i) * w + k * w;
    }
  }

  /** Distinct positions of a line are distinct pixels. */
  lemma {:induction false} AtInjective(w: int, h: int, l: Line, i: int, k: int)
    requires Inside(w, h, l) && 0 <= i < l.len && 0 <= k < l.len && i != k
    ensures At(w, h, l, i) != At(w, h, l, k)
  {
    if At(w, h, l, i) == At(w, h, l, k) {
      IdxInjective(w, h, PX(l, i), PY(l, i), PX(l, k), PY(l, k));
    }
  }

  /** A pixel off the line has an index no position of the line has. */
  lemma {:induction false} OffLine(w: int, h: int, l: Line, i: int, x: int, y: int)
    requires Inside(w, h, l) && 0 <= i < l.len && 0 <= x < w && 0 <= y < h && !OnLine(l, x, y)
    ensures Idx(w, h, x, y) != At(w, h, l, i)
  {
    if Idx(w, h, x, y) == At(w, h, l, i) {
      IdxInjective(w, h, x, y, PX(l, i), PY(l, i));
    }
  }

  /** The pixels of a line of buffer S, in the order the pass visits them. */
  function LineOf(S: seq<bv32>, w: int, h: int, l: Line): (L: seq<bv32>)
    requires |S| == w * h && Inside(w, h, l)
    ensures |L| == l.len
  {
    seq(l.len, i requires 0 <= i < l.len => S[At(w, h, l, i)])
  }
}
