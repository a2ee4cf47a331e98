/** The `GaussianBlur` class of util/SurfaceTransformBlur.cs: three box blurs whose widths
    approximate a Gaussian of standard deviation sigma, ping-ponging between the class's
    private copy `src` and the surface's pixel buffer `image`. */
module Gaussian {
  import opened BlurPixel
  import opened BlurWindow
  import opened BlurGrid
  import opened BlurPasses

  /** `wl`: the floor of the ideal width, made odd by stepping down; the largest odd integer
      not above it. */
  function Lower(wFloor: int): (wl: int)
    ensures wl % 2 == 1 && wFloor - 1 <= wl <= wFloor
  {
    if wFloor % 2 == 0 then wFloor - 1 else wFloor
  }

  /** The box widths `boxesForGauss` returns: `wl` for the first m boxes, `wu = wl + 2` after. */
  function BoxWidths(n: nat, wFloor: int, m: int): (s: seq<int>)
    ensures |s| == n
  {
    seq(n, i => if i < m then Lower(wFloor) else Lower(wFloor) + 2)
  }

  /** `boxesForGauss(sigma, n)`, given the results of its two floating-point steps:
      `wFloor = (int)Math.Floor(Math.Sqrt(12 sigma^2 / n + 1))` and `m = Math.Round(mIdeal)`. */
  method BoxesForGauss(n: nat, wFloor: int, m: int) returns (sizes: seq<int>)
    ensures sizes == BoxWidths(n, wFloor, m)
  {
    var wl := wFloor;
    if wl % 2 == 0 {
      wl := wl - 1;
    }
    var wu := wl + 2;
    sizes := [];
    var i := 0;
    while i < n
      invariant 0 <= i <= n
      invariant |sizes| == i && forall k :: 0 <= k < i ==> sizes[k] == (if k < m then wl else wu)
    {
      sizes := sizes + [if i < m then wl else wu];
      i := i + 1;
    }
    assert wl == Lower(wFloor);
  }

  /** n widths, each odd, each `wl` or `wl + 2`, in non-decreasing order; all at least 1
      when the floor of the ideal width is, which it always is (PlannedWidthAtLeastOne). */
  lemma BoxWidthsShape(n: nat, wFloor: int, m: int)
    ensures |BoxWidths(n, wFloor, m)| == n
    ensures forall i :: 0 <= i < n ==> BoxWidths(n, wFloor, m)[i] % 2 == 1
    ensures forall i :: 0 <= i < n ==>
              BoxWidths(n, wFloor, m)[i] == Lower(wFloor) || BoxWidths(n, wFloor, m)[i] == Lower(wFloor) + 2
    ensures forall i, j :: 0 <= i <= j < n ==> BoxWidths(n, wFloor, m)[i] <= BoxWidths(n, wFloor, m)[j]
    ensures wFloor >= 1 ==> forall i :: 0 <= i < n ==> BoxWidths(n, wFloor, m)[i] >= 1
  {
    var wl := Lower(wFloor);
    assert wl % 2 == 1 && (wl + 2) % 2 == 1 by {
      if wFloor % 2 == 0 {
        assert wl == wFloor - 1;
      }
    }
  }

  /** f is the floor of the square root of x. */
  ghost predicate FloorOfSqrt(x: real, f: int) {
    0 <= f && (f * f) as real <= x < ((f + 1) * (f + 1)) as real
  }

  /** `mIdeal = (12 sigma^2 - n wl^2 - 4 n wl - 3 n) / (-4 wl - 4)`. */
  function MIdeal(sigma: real, n: nat, wl: int): real
    requires wl >= 0
  {
    (12.0 * sigma * sigma - (n * wl * wl) as real - (4 * n * wl) as real - (3 * n) as real) / ((-4 * wl - 4) as real)
  }

  /** m is x rounded to an integer, in either direction at a tie (`Math.Round`). */
  ghost predicate RoundOf(x: real, m: int) {
    m as real - 0.5 <= x <= m as real + 0.5
  }

  /** wFloor and m are what the two floating-point steps of `boxesForGauss(sigma, n)` give,
      computed without rounding error. */
  ghost predicate PlannedFrom(sigma: real, n: nat, wFloor: int, m: int) {
    n > 0 && wFloor >= 1 &&
    FloorOfSqrt(12.0 * sigma * sigma / n as real + 1.0, wFloor) &&
    RoundOf(MIdeal(sigma, n, Lower(wFloor)), m)
  }

  /** The ideal width is at least 1, so its floor is. */
  lemma PlannedWidthAtLeastOne(sigma: real, n: nat, f: int)
    requires n > 0 && FloorOfSqrt(12.0 * sigma * sigma / n as real + 1.0, f)
    ensures f >= 1
  {
    assert sigma * sigma >= 0.0;
    assert 12.0 * sigma * sigma / n as real >= 0.0;
  }

  /** With sigma = 0 all three boxes have width 1, that is radius 0. */
  lemma {:induction false} ZeroSigmaPlansUnitBoxes(f: int, m: int)
    requires PlannedFrom(0.0, 3, f, m)
    ensures BoxWidths(3, f, m) == [1, 1, 1]
  {
    assert (f * f) as real <= 1.0;
    assert f == 1;
    assert MIdeal(0.0, 3, 1) == 3.0;
  }

  /** The radius `(width - 1) / 2` of an odd width: exactly, 2r + 1 is the width. */
  function Radius(width: int): (r: nat)
    requires width >= 1 && width % 2 == 1
    ensures 2 * r + 1 == width
  {
    (width - 1) / 2
  }

  /** The box widths fit the rectangle: each is at most the length of the lines of both
      passes, whenever the pass has lines at all. */
  predicate WidthsFit(widths: seq<int>, R: Rect) {
    forall i :: 0 <= i < |widths| ==>
      (R.ys < R.ye ==> widths[i] <= R.xe - R.xs) && (R.xs < R.xe ==> widths[i] <= R.ye - R.ys)
  }

  /** The rectangle and mode of the passes: the whole image and Full, or R with band width b. */
  function PassRect(full: bool, R: Rect, w: nat, h: nat): Rect {
    if full then Rect(0, 0, w, h) else R
  }

  function PassMode(full: bool, b: int): Mode {
    if full then Full else EdgeOnly(b)
  }

  /** The horizontal pass of `boxBlur_4` on input In: it reads the copy of In and writes over In. */
  function HStage(In: seq<bv32>, w: nat, h: nat, full: bool, b: int, R: Rect, r: nat, avg: Average): (D: seq<bv32>)
    requires |In| == w * h && Within(PassRect(full, R, w, h), w, h)
    ensures |D| == w * h
  {
    PassResult(In, In, w, h, true, PassRect(full, R, w, h), PassMode(full, b), r, avg)
  }

  /** The result of `boxBlur_4` on input In: the vertical pass reads the horizontal pass's
      output and writes over the copy of In. */
  function BoxStage(In: seq<bv32>, w: nat, h: nat, full: bool, b: int, R: Rect, r: nat, avg: Average): (D: seq<bv32>)
    requires |In| == w * h && Within(PassRect(full, R, w, h), w, h)
    ensures |D| == w * h
  {
    PassResult(HStage(In, w, h, full, b, R, r, avg), In, w, h, false, PassRect(full, R, w, h), PassMode(full, b), r, avg)
  }

  /** The result of `gaussBlur_4`: three box blurs of radii r1, r2, r3. */
  function Gauss(In: seq<bv32>, w: nat, h: nat, full: bool, b: int, R: Rect, r1: nat, r2: nat, r3: nat,
                 avg: Average): (D: seq<bv32>)
    requires |In| == w * h && Within(PassRect(full, R, w, h), w, h)
    ensures |D| == w * h
  {
    BoxStage(BoxStage(BoxStage(In, w, h, full, b, R, r1, avg), w, h, full, b, R, r2, avg), w, h, full, b, R, r3, avg)
  }

  /** The three-pass blur with the radii `(width - 1) / 2` of the widths `boxesForGauss` plans. */
  function PlannedGauss(In: seq<bv32>, w: nat, h: nat, full: bool, b: int, R: Rect, wFloor: int, m: int,
                        avg: Average): (D: seq<bv32>)
    requires |In| == w * h && Within(PassRect(full, R, w, h), w, h) && wFloor >= 1
    ensures |D| == w * h
  {
    var bxs := BoxWidths(3, wFloor, m);
    BoxWidthsShape(3, wFloor, m);
    Gauss(In, w, h, full, b, R, Radius(bxs[0]), Radius(bxs[1]), Radius(bxs[2]), avg)
  }

  /** A box blur keeps every pixel's alpha: both passes write the alpha byte of the pixel they
      overwrite, and the copy made before them holds the input's alpha. */
  lemma {:induction false} BoxKeepsAlpha(In: seq<bv32>, w: nat, h: nat, full: bool, b: int, R: Rect, r: nat, avg: Average)
    requires |In| == w * h && Within(PassRect(full, R, w, h), w, h)
    ensures forall j :: 0 <= j < w * h ==> AlphaOf(BoxStage(In, w, h, full, b, R, r, avg)[j]) == AlphaOf(In[j])
  {
    PassKeepsAlpha(HStage(In, w, h, full, b, R, r, avg), In, w, h, false, PassRect(full, R, w, h), PassMode(full, b), r, avg);
  }

  /** The whole three-pass blur keeps every pixel's alpha. */
  lemma {:induction false} GaussKeepsAlpha(In: seq<bv32>, w: nat, h: nat, full: bool, b: int, R: Rect,
                                           r1: nat, r2: nat, r3: nat, avg: Average)
    requires |In| == w * h && Within(PassRect(full, R, w, h), w, h)
    ensures forall j :: 0 <= j < w * h ==> AlphaOf(Gauss(In, w, h, full, b, R, r1, r2, r3, avg)[j]) == AlphaOf(In[j])
  {
    var B1 := BoxStage(In, w, h, full, b, R, r1, avg);
    var B2 := BoxStage(B1, w, h, full, b, R, r2, avg);
    BoxKeepsAlpha(In, w, h, full, b, R, r1, avg);
    BoxKeepsAlpha(B1, w, h, full, b, R, r2, avg);
    BoxKeepsAlpha(B2, w, h, full, b, R, r3, avg);
  }

  /** A box blur leaves the pixels outside its rectangle as they were. */
  lemma {:induction false} BoxOutsideRect(In: seq<bv32>, w: nat, h: nat, full: bool, b: int, R: Rect, r: nat, avg: Average,
                                          px: int, py: int)
    requires |In| == w * h && Within(PassRect(full, R, w, h), w, h) && 0 <= px < w && 0 <= py < h
    requires !InRect(PassRect(full, R, w, h), px, py)
    ensures BoxStage(In, w, h, full, b, R, r, avg)[Idx(w, h, px, py)] == In[Idx(w, h, px, py)]
  {
    PassOutsideRect(HStage(In, w, h, full, b, R, r, avg), In, w, h, false, PassRect(full, R, w, h), PassMode(full, b), r, avg, px, py);
  }

  /** The three-pass blur leaves the pixels outside its rectangle as they were. */
  lemma {:induction false} GaussOutsideRect(In: seq<bv32>, w: nat, h: nat, full: bool, b: int, R: Rect,
                                            r1: nat, r2: nat, r3: nat, avg: Average, px: int, py: int)
    requires |In| == w * h && Within(PassRect(full, R, w, h), w, h) && 0 <= px < w && 0 <= py < h
    requires !InRect(PassRect(full, R, w, h), px, py)
    ensures Gauss(In, w, h, full, b, R, r1, r2, r3, avg)[Idx(w, h, px, py)] == In[Idx(w, h, px, py)]
  {
    var B1 := BoxStage(In, w, h, full, b, R, r1, avg);
    var B2 := BoxStage(B1, w, h, full, b, R, r2, avg);
    BoxOutsideRect(In, w, h, full, b, R, r1, avg, px, py);
    BoxOutsideRect(B1, w, h, full, b, R, r2, avg, px, py);
    BoxOutsideRect(B2, w, h, full, b, R, r3, avg, px, py);
  }

  /** Neither pass of a box blur of radius r jumps over anything. */
  predicate BothNeverSkip(full: bool, b: int, R: Rect, w: nat, h: nat, r: nat) {
    NeverSkips(true, PassRect(full, R, w, h), PassMode(full, b), r) &&
    NeverSkips(false, PassRect(full, R, w, h), PassMode(full, b), r)
  }

  /** Three box blurs of radius 0 that never jump leave the image as it was. */
  lemma {:induction false} GaussRadiusZero(In: seq<bv32>, w: nat, h: nat, full: bool, b: int, R: Rect, avg: Average)
    requires |In| == w * h && Within(PassRect(full, R, w, h), w, h)
    requires BothNeverSkip(full, b, R, w, h, 0) && ExactAtRadiusZero(avg)
    ensures Gauss(In, w, h, full, b, R, 0, 0, 0, avg) == In
  {
    var Q, M := PassRect(full, R, w, h), PassMode(full, b);
    PassRadiusZero(In, w, h, true, Q, M, avg);
    PassRadiusZero(In, w, h, false, Q, M, avg);
    assert BoxStage(In, w, h, full, b, R, 0, avg) == In;
  }

  /** An image of one colour is a fixed point of the three-pass blur, in full and in
      edge-only mode alike. */
  lemma {:induction false} GaussUniformFixed(In: seq<bv32>, p: bv32, w: nat, h: nat, full: bool, b: int, R: Rect,
                                             r1: nat, r2: nat, r3: nat, avg: Average)
    requires |In| == w * h && Within(PassRect(full, R, w, h), w, h) && Uniform(In, p) && ExactOnMultiples(avg)
    ensures Gauss(In, w, h, full, b, R, r1, r2, r3, avg) == In
  {
    var Q, M := PassRect(full, R, w, h), PassMode(full, b);
    PassUniformFixed(In, p, w, h, true, Q, M, r1, avg);
    PassUniformFixed(In, p, w, h, false, Q, M, r1, avg);
    assert BoxStage(In, w, h, full, b, R, r1, avg) == In;
    PassUniformFixed(In, p, w, h, true, Q, M, r2, avg);
    PassUniformFixed(In, p, w, h, false, Q, M, r2, avg);
    assert BoxStage(In, w, h, full, b, R, r2, avg) == In;
    PassUniformFixed(In, p, w, h, true, Q, M, r3, avg);
    PassUniformFixed(In, p, w, h, false, Q, M, r3, avg);
  }

  class GaussianBlur {
    /** The private copy of the image (`int[] src`). */
    var src: array<bv32>
    /** The surface's pixel buffer (`int* image`). */
    var image: array<bv32>
    const w: nat
    const h: nat

    ghost predicate Valid()
      reads this
    {
      src.Length == w * h && image.Length == w * h && src != image
    }

    /** `GaussianBlur(int* image, int width, int height)`: allocates `src` and loads the image. */
    constructor (image: array<bv32>, width: nat, height: nat)
      requires image.Length == width * height
      ensures Valid() && this.image == image && w == width && h == height
      ensures fresh(src) && src[..] == image[..]
    {
      w, h := width, height;
      src := new bv32[width * height];
      new;
      LoadImage(image);
    }

    /** `LoadImage`: remembers the buffer and copies its w * h pixels into `src`. */
    method LoadImage(image: array<bv32>)
      requires src.Length == w * h && image.Length == w * h && image != src
      modifies this, src
      ensures this.image == image && src == old(src) && src[..] == image[..]
    {
      this.image := image;
      var len := w * h;
      var i := 0;
      while i < len
        invariant 0 <= i <= len && src == old(src) && this.image == image
        invariant src[..i] == image[..i]
      {
        src[i] := image[i];
        i := i + 1;
      }
    }

    /** `ProcessFull`: blurs the whole image, from `src` into `image`. */
    method ProcessFull(sigma: real, wFloor: int, m: int, avg: Average)
      requires Valid() && PlannedFrom(sigma, 3, wFloor, m) && WidthsFit(BoxWidths(3, wFloor, m), Rect(0, 0, w, h))
      modifies src, image
      ensures image[..] == PlannedGauss(old(src[..]), w, h, true, 0, Rect(0, 0, w, h), wFloor, m, avg)
    {
      GaussBlur4(src, image, true, 0, sigma, Rect(0, 0, w, h), wFloor, m, avg);
    }

    /** `ProcessPartial`: blurs the band of width b along the edges of the rectangle
        [x1, x2) x [y1, y2), from `src` into `image`. */
    method ProcessPartial(sigma: real, b: int, x1: int, y1: int, x2: int, y2: int, wFloor: int, m: int, avg: Average)
      requires Valid() && Within(Rect(x1, y1, x2, y2), w, h)
      requires PlannedFrom(sigma, 3, wFloor, m) && WidthsFit(BoxWidths(3, wFloor, m), Rect(x1, y1, x2, y2))
      modifies src, image
      ensures image[..] == PlannedGauss(old(src[..]), w, h, false, b, Rect(x1, y1, x2, y2), wFloor, m, avg)
    {
      GaussBlur4(src, image, false, b, sigma, Rect(x1, y1, x2, y2), wFloor, m, avg);
    }

    /** `gaussBlur_4`: three box blurs, from srcP to destP, back, and to destP again, so the
        result is in destP and srcP holds the last horizontal pass. */
    method GaussBlur4(srcP: array<bv32>, destP: array<bv32>, full: bool, b: int, sigma: real, R: Rect,
                      wFloor: int, m: int, avg: Average)
      requires src.Length == w * h && srcP.Length == w * h && destP.Length == w * h && srcP != destP
      requires Within(PassRect(full, R, w, h), w, h)
      requires PlannedFrom(sigma, 3, wFloor, m) && WidthsFit(BoxWidths(3, wFloor, m), PassRect(full, R, w, h))
      modifies srcP, destP
      ensures var bxs := BoxWidths(3, wFloor, m);
              var B2 := BoxStage(BoxStage(old(srcP[..]), w, h, full, b, R, Radius(bxs[0]), avg), w, h, full, b, R, Radius(bxs[1]), avg);
              destP[..] == Gauss(old(srcP[..]), w, h, full, b, R, Radius(bxs[0]), Radius(bxs[1]), Radius(bxs[2]), avg) &&
              srcP[..] == HStage(B2, w, h, full, b, R, Radius(bxs[2]), avg)
    {
      var bxs := BoxesForGauss(3, wFloor, m);
      BoxWidthsShape(3, wFloor, m);
      BoxBlur4(srcP, destP, full, b, Radius(bxs[0]), R, avg);
      BoxBlur4(destP, srcP, full, b, Radius(bxs[1]), R, avg);
      BoxBlur4(srcP, destP, full, b, Radius(bxs[2]), R, avg);
    }

    /** `boxBlur_4`: copies srcP into destP, runs the horizontal pass from destP into srcP and
        the vertical pass from srcP into destP. */
    method BoxBlur4(srcP: array<bv32>, destP: array<bv32>, full: bool, b: int, r: nat, R: Rect, avg: Average)
      requires src.Length == w * h && srcP.Length == w * h && destP.Length == w * h && srcP != destP
      requires Within(PassRect(full, R, w, h), w, h)
      requires WidthsFit([2 * r + 1], PassRect(full, R, w, h))
      modifies srcP, destP
      ensures destP[..] == BoxStage(old(srcP[..]), w, h, full, b, R, r, avg)
      ensures srcP[..] == HStage(old(srcP[..]), w, h, full, b, R, r, avg)
    {
      var i := 0;
      while i < src.Length
        invariant 0 <= i <= src.Length && srcP[..] == old(srcP[..])
        invariant destP[..i] == srcP[..i]
      {
        destP[i] := srcP[i];
        i := i + 1;
      }
      assert destP[..] == srcP[..];
      var Q := PassRect(full, R, w, h);
      assert (Q.ys < Q.ye ==> 2 * r + 1 <= Q.xe - Q.xs) && (Q.xs < Q.xe ==> 2 * r + 1 <= Q.ye - Q.ys) by {
        assert [2 * r + 1][0] == 2 * r + 1;
      }
      if !full {
        BoxBlurHPartial(destP, srcP, b, w, h, r, R, avg);
        BoxBlurTPartial(srcP, destP, b, w, h, r, R, avg);
      } else {
        BoxBlurHFull(destP, srcP, w, h, r, avg);
        BoxBlurTFull(srcP, destP, w, h, r, avg);
      }
    }
  }
}
