/** The entry points `BlurFull` and `BlurPartial` of util/SurfaceTransformBlur.cs: argument
    checks, the clamp on the blur range, and the run of a `GaussianBlur` over the surface. */
module SurfaceBlur {
  import opened BlurPixel
  import opened BlurPasses
  import opened Gaussian
  import opened Surfaces

  /** What a call does: blur and mark the surface dirty, return early, or throw an
      `ArgumentException` with a message. */
  datatype Outcome = Blurred | NoOp | Thrown(message: string)

  const BadRectMessage := "x2 must be largner than x1, and y2 must be larger than y1"
  const BadSizeMessage := "Image surface width and hight must be above 0"

  /** C#'s `/ 2` on an int: truncation toward zero. The remainder `n - 2q` takes the sign
      of n, so a negative odd n rounds up, where Dafny's `/` would round down. */
  function Half(n: int): (q: int)
    ensures n >= 0 ==> 0 <= n - 2 * q <= 1
    ensures n < 0 ==> -1 <= n - 2 * q <= 0
    ensures n >= 0 ==> q == n / 2
  {
    if n >= 0 then n / 2 else -((-n) / 2)
  }

  function Min(a: int, b: int): int {
    if a <= b then a else b
  }

  /** The clamp as written: `Math.Min(range, Math.Min(W, H) / 2 - 1.5)`. It never exceeds the
      bound, nor the range asked for, and it is one of the two. */
  function ClampAsWritten(range: real, W: int, H: int): (s: real)
    ensures s <= range && s <= Half(Min(W, H)) as real - 1.5
    ensures s == range || s == Half(Min(W, H)) as real - 1.5
  {
    var bound := Half(Min(W, H)) as real - 1.5;
    if range <= bound then range else bound
  }

  /** The clamp as intended: the same bound, and never below 0. A negative sigma has the same
      square as a positive one, so without this the boxes grow instead of shrinking. */
  function ClampRange(range: real, W: int, H: int): (s: real)
    ensures 0.0 <= s <= (if range <= 0.0 then 0.0 else range)
    ensures ClampAsWritten(range, W, H) >= 0.0 ==> s == ClampAsWritten(range, W, H)
    ensures ClampAsWritten(range, W, H) < 0.0 ==> s == 0.0
  {
    var s := ClampAsWritten(range, W, H);
    if s < 0.0 then 0.0 else s
  }

  /** As written, on a surface one pixel wide (or high) the clamp yields sigma = -1.5 for any
      range of at least -1.5, and every box planned from that sigma is at least 3 wide: wider
      than the surface, so the passes read outside their rows or columns. */
  lemma {:induction false} ThinSurfaceBoxOverflows(range: real, H: int, f: int, m: int)
    requires range >= -1.5 && H >= 1
    requires PlannedFrom(ClampAsWritten(range, 1, H), 3, f, m)
    ensures ClampAsWritten(range, 1, H) == -1.5
    ensures forall i :: 0 <= i < 3 ==> BoxWidths(3, f, m)[i] >= 3
    ensures !WidthsFit(BoxWidths(3, f, m), Rect(0, 0, 1, H))
  {
    assert Half(Min(1, H)) == 0;
    var x := 12.0 * (-1.5) * (-1.5) / 3 as real + 1.0;
    assert x == 10.0;
    assert 10.0 < ((f + 1) * (f + 1)) as real;
    assert f >= 3 by {
      SquareLess(3, f + 1);
    }
    BoxWidthsShape(3, f, m);
    assert BoxWidths(3, f, m)[0] >= 3;
  }

  /** The smallest case: a 1 x 1 surface, range 5, and the plan sigma = -1.5 gives (floor of
      the square root of 10 is 3, mIdeal is 45/16, which rounds to 3): three boxes of width 3. */
  lemma ThinSurfaceExample()
    ensures ClampAsWritten(5.0, 1, 1) == -1.5
    ensures PlannedFrom(-1.5, 3, 3, 3)
    ensures BoxWidths(3, 3, 3) == [3, 3, 3]
    ensures !WidthsFit(BoxWidths(3, 3, 3), Rect(0, 0, 1, 1))
  {
    assert MIdeal(-1.5, 3, 3) == 45.0 / 16.0;
    assert Lower(3) == 3;
    assert BoxWidths(3, 3, 3) == [3, 3, 3];
    assert BoxWidths(3, 3, 3)[0] > Rect(0, 0, 1, 1).xe - Rect(0, 0, 1, 1).xs;
  }

  /** As written, a negative range passes the clamp unchanged and plans boxes from its
      magnitude: range -2 on a 100 x 100 surface keeps sigma -2 and plans the widths [3, 3, 5],
      where the corrected clamp plans sigma 0 and three boxes of width 1. */
  lemma NegativeRangeAsWritten()
    ensures ClampAsWritten(-2.0, 100, 100) == -2.0 && ClampRange(-2.0, 100, 100) == 0.0
    ensures PlannedFrom(-2.0, 3, 4, 2) && BoxWidths(3, 4, 2) == [3, 3, 5]
  {
    assert MIdeal(-2.0, 3, 3) == 1.5;
    assert Lower(4) == 3;
    assert BoxWidths(3, 4, 2) == [3, 3, 5];
  }

  /** With the corrected clamp every planned box fits the surface, whatever the range. */
  lemma {:induction false} ClampedPlanFits(range: real, W: int, H: int, f: int, m: int)
    requires W >= 1 && H >= 1 && PlannedFrom(ClampRange(range, W, H), 3, f, m)
    ensures WidthsFit(BoxWidths(3, f, m), Rect(0, 0, W, H))
  {
    ClampedBoxesBounded(ClampRange(range, W, H), Min(W, H), f, m);
  }

  /** A sigma that is 0, or positive and within the clamp's bound for a surface whose smaller
      side is n, plans no box wider than n. */
  lemma {:induction false} ClampedBoxesBounded(sigma: real, n: int, f: int, m: int)
    requires n >= 1 && (sigma == 0.0 || 0.0 < sigma <= Half(n) as real - 1.5) && PlannedFrom(sigma, 3, f, m)
    ensures forall i :: 0 <= i < 3 ==> BoxWidths(3, f, m)[i] <= n
  {
    BoxWidthsShape(3, f, m);
    if sigma == 0.0 {
      ZeroSigmaPlansUnitBoxes(f, m);
    } else {
      PositiveClampWidth(sigma, n, f);
    }
  }

  /** A positive sigma below the clamp's bound for a surface whose smaller side is n plans a
      floor whose odd box widths, the larger included, are at most n. */
  lemma {:induction false} PositiveClampWidth(sigma: real, n: int, f: int)
    requires n >= 1 && 0.0 < sigma <= Half(n) as real - 1.5
    requires FloorOfSqrt(12.0 * sigma * sigma / 3 as real + 1.0, f)
    ensures Lower(f) + 2 <= n
  {
    var k := Half(n);
    PositiveSigmaWidth(sigma, k, f);
    assert 2 * k <= n;
  }

  /** A sigma of at most k - 1.5 gives an ideal width below 2k - 2, so a floor of at most 2k - 3. */
  lemma {:induction false} PositiveSigmaWidth(sigma: real, k: int, f: int)
    requires 0.0 < sigma <= k as real - 1.5 && FloorOfSqrt(12.0 * sigma * sigma / 3 as real + 1.0, f)
    ensures f <= 2 * k - 3
  {
    assert k >= 2;
    var u := (2 * k - 3) as real;
    RealSquareMono(2.0 * sigma, u);
    assert 12.0 * sigma * sigma / 3 as real == (2.0 * sigma) * (2.0 * sigma);
    assert u * u == ((2 * k - 3) * (2 * k - 3)) as real;
    assert f * f <= (2 * k - 3) * (2 * k - 3) + 1;
    assert (2 * k - 3) * (2 * k - 3) + 1 < (2 * k - 2) * (2 * k - 2);
    SquareLess(f, 2 * k - 2);
  }

  lemma RealSquareMono(a: real, b: real)
    requires 0.0 <= a <= b
    ensures a * a <= b * b
  {
    assert a * a <= a * b;
  }

  /** For non-negative integers, a smaller square has the smaller root. */
  lemma SquareLess(a: int, c: int)
    requires 0 <= a && 0 <= c && a * a < c * c
    ensures a < c
  {
    SquareMono(c, a);
  }

  lemma SquareMono(c: int, a: int)
    requires 0 <= c
    ensures c <= a ==> c * c <= a * a
  {
    if c <= a {
      assert c * c <= c * a;
      assert c * a <= a * a;
    }
  }

  /** `BlurFull(range)`: the clamped range plans three boxes; an empty surface throws;
      otherwise the whole surface is blurred in place and marked dirty. The parameters wFloor
      and m are the results of the floating-point steps of `boxesForGauss`, and avg the
      averaging step `(byte)(val * iar)`. */
  method BlurFull(surface: ImageSurface, range: real, wFloor: int, m: int, avg: Average) returns (res: Outcome)
    requires surface.Valid()
    requires PlannedFrom(ClampRange(range, surface.width, surface.height), 3, wFloor, m)
    modifies surface, surface.data
    ensures surface.width == old(surface.width) && surface.height == old(surface.height)
    ensures surface.data == old(surface.data) && surface.Valid()
    ensures surface.width <= 0 || surface.height <= 0 ==>
              res == Thrown(BadSizeMessage) && surface.dirty == old(surface.dirty) && surface.data[..] == old(surface.data[..])
    ensures surface.width > 0 && surface.height > 0 ==>
              res == Blurred && surface.dirty &&
              surface.data[..] == PlannedGauss(old(surface.data[..]), surface.width, surface.height, true, 0,
                                               Rect(0, 0, surface.width, surface.height), wFloor, m, avg)
  {
    var sigma := ClampRange(range, surface.width, surface.height);
    if surface.width <= 0 || surface.height <= 0 {
      return Thrown(BadSizeMessage);
    }
    ClampedPlanFits(range, surface.width, surface.height, wFloor, m);
    var blur := new GaussianBlur(surface.data, surface.width, surface.height);
    blur.ProcessFull(sigma, wFloor, m, avg);
    surface.MarkDirty();
    res := Blurred;
  }

  /** `BlurPartial(range, b, x1, y1, x2, y2)`: an empty rectangle returns at once; a reversed
      one throws, and so does an empty surface; otherwise the band of width b along the edges
      of [x1, x2) x [y1, y2) is blurred in place and the surface marked dirty. The range is
      clamped as the source does it, from above only. The source does not check that the
      rectangle lies on the surface, nor that the planned boxes fit it (the clamp only looks
      at the surface): both are required here. */
  method BlurPartial(surface: ImageSurface, range: real, b: int, x1: int, y1: int, x2: int, y2: int,
                     wFloor: int, m: int, avg: Average) returns (res: Outcome)
    requires surface.Valid()
    requires PlannedFrom(ClampAsWritten(range, surface.width, surface.height), 3, wFloor, m)
    requires x1 < x2 && y1 < y2 && surface.width > 0 && surface.height > 0 ==>
               Within(Rect(x1, y1, x2, y2), surface.width, surface.height) &&
               WidthsFit(BoxWidths(3, wFloor, m), Rect(x1, y1, x2, y2))
    modifies surface, surface.data
    ensures surface.width == old(surface.width) && surface.height == old(surface.height)
    ensures surface.data == old(surface.data) && surface.Valid()
    ensures res != Blurred ==> surface.dirty == old(surface.dirty) && surface.data[..] == old(surface.data[..])
    ensures res == NoOp <==> x1 == x2 || y1 == y2
    ensures res == Thrown(BadRectMessage) <==> x1 != x2 && y1 != y2 && (x2 < x1 || y2 < y1)
    ensures res == Thrown(BadSizeMessage) <==>
              x1 < x2 && y1 < y2 && (surface.width <= 0 || surface.height <= 0)
    ensures res == Blurred <==> x1 < x2 && y1 < y2 && surface.width > 0 && surface.height > 0
    ensures res == Blurred ==>
              surface.dirty &&
              surface.data[..] == PlannedGauss(old(surface.data[..]), surface.width, surface.height, false, b,
                                               Rect(x1, y1, x2, y2), wFloor, m, avg)
  {
    var sigma := ClampAsWritten(range, surface.width, surface.height);
    if x1 == x2 || y1 == y2 {
      return NoOp;
    }
    if x2 <= x1 || y2 <= y1 {
      return Thrown(BadRectMessage);
    }
    if surface.width <= 0 || surface.height <= 0 {
      return Thrown(BadSizeMessage);
    }
    var blur := new GaussianBlur(surface.data, surface.width, surface.height);
    blur.ProcessPartial(sigma, b, x1, y1, x2, y2, wFloor, m, avg);
    surface.MarkDirty();
    res := Blurred;
  }

  /** `BlurPartial(range, b)`: the edge band of the whole surface. An empty surface makes the
      rectangle empty, so this overload returns without throwing; any other surface is blurred.
      The boxes the clamp as written plans need not fit a surface one to three pixels thin
      (ThinSurfaceBoxOverflows), so that they fit is required here, as BlurPartial requires
      it; with the corrected clamp they always do (ClampedPlanFits). */
  method BlurPartialWhole(surface: ImageSurface, range: real, b: int, wFloor: int, m: int, avg: Average)
    returns (res: Outcome)
    requires surface.Valid()
    requires PlannedFrom(ClampAsWritten(range, surface.width, surface.height), 3, wFloor, m)
    requires surface.width > 0 && surface.height > 0 ==>
               WidthsFit(BoxWidths(3, wFloor, m), Rect(0, 0, surface.width, surface.height))
    modifies surface, surface.data
    ensures surface.width == old(surface.width) && surface.height == old(surface.height)
    ensures surface.data == old(surface.data) && surface.Valid()
    ensures surface.width == 0 || surface.height == 0 ==>
              res == NoOp && surface.dirty == old(surface.dirty) && surface.data[..] == old(surface.data[..])
    ensures surface.width > 0 && surface.height > 0 ==>
              res == Blurred && surface.dirty &&
              surface.data[..] == PlannedGauss(old(surface.data[..]), surface.width, surface.height, false, b,
                                               Rect(0, 0, surface.width, surface.height), wFloor, m, avg)
  {
    res := BlurPartial(surface, range, b, 0, 0, surface.width, surface.height, wFloor, m, avg);
  }
}
