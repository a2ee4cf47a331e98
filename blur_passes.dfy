/** The four box-blur passes of util/SurfaceTransformBlur.cs: `boxBlurH_4RGBFull`,
    `boxBlurT_4RGBFull`, `boxBlurH_4RGBPartial` and `boxBlurT_4RGBPartial`. Each runs the line
    loop of BlurKernel over every row (H) or column (T) of a rectangle; they differ only in the
    rectangle, which is the whole image for the full passes, and in where the edge-only passes
    jump over the interior of a line. */
module BlurPasses {
  import opened BlurPixel
  import opened BlurWindow
  import opened BlurGrid
  import opened BlurKernel

  /** The rectangle [xs, xe) x [ys, ye) a pass works on (`x1`, `y1`, `x2`, `y2` of the
      entry points). */
  datatype Rect = Rect(xs: int, ys: int, xe: int, ye: int)

  /** A full pass, or an edge-only pass with band width b (`blurOnlyEdgeWidth`). */
  datatype Mode = Full | EdgeOnly(b: int)

  /** The rectangle lies in the w-by-h image. */
  predicate Within(R: Rect, w: int, h: int) {
    0 <= R.xs <= R.xe <= w && 0 <= R.ys <= R.ye <= h
  }

  /** Pixel (px, py) is inside the rectangle. */
  predicate InRect(R: Rect, px: int, py: int) {
    R.xs <= px < R.xe && R.ys <= py < R.ye
  }

  /** The length of each line of the pass: the rectangle's width for H, its height for T. */
  function Span(horizontal: bool, R: Rect): int {
    if horizontal then R.xe - R.xs else R.ye - R.ys
  }

  /** The number of lines of the pass: rows for H, columns for T. */
  function Count(horizontal: bool, R: Rect): int {
    if horizontal then R.ye - R.ys else R.xe - R.xs
  }

  /** The k-th line: row ys + k for H, column xs + k for T. */
  function NthLine(horizontal: bool, R: Rect, k: int): (l: Line)
    requires R.xs <= R.xe && R.ys <= R.ye
    ensures l.len == Span(horizontal, R)
  {
    if horizontal then Line(R.xs, R.ys + k, true, R.xe - R.xs)
    else Line(R.xs + k, R.ys, false, R.ye - R.ys)
  }

  /** Which line pixel (px, py) belongs to, and its position along that line. */
  function LineNo(horizontal: bool, R: Rect, px: int, py: int): int {
    if horizontal then py - R.ys else px - R.xs
  }

  function Along(horizontal: bool, R: Rect, px: int, py: int): int {
    if horizontal then px - R.xs else py - R.ys
  }

  /** The local position at which the middle loop of line k jumps. The full passes never jump
      (-1). The edge-only H pass jumps at column `x1 = xs + b` on rows strictly between
      `y1 = ys + b` and `y2 = ye - 2b`; the T pass jumps at row `y1 = ys + b` on columns
      strictly between `x1 = xs + b` and `x2 = xe - 2b`. */
  function Test(horizontal: bool, R: Rect, mode: Mode, k: int): (t: int)
    ensures mode.EdgeOnly? && mode.b < k < Count(horizontal, R) - 2 * mode.b ==> t == mode.b
    ensures !(mode.EdgeOnly? && mode.b < k < Count(horizontal, R) - 2 * mode.b) ==> t == -1
  {
    match mode
    case Full => -1
    case EdgeOnly(b) =>
      if horizontal then
        (if R.ys + k > R.ys + b && R.ys + k < R.ye - 2 * b then b else -1)
      else
        (if R.xs + k > R.xs + b && R.xs + k < R.xe - 2 * b then b else -1)
  }

  /** How many positions the jump passes over: `xSkip = max(0, xe - x1 - b)` for H and
      `ySkip = max(0, ye - y1 - b)` for T, both `max(0, Span - 2b)`. */
  function Skip(horizontal: bool, R: Rect, mode: Mode): (s: nat)
    ensures mode.Full? ==> s == 0
    ensures mode.EdgeOnly? && 2 * mode.b <= Span(horizontal, R) ==> mode.b + s == Span(horizontal, R) - mode.b
    ensures mode.EdgeOnly? && 2 * mode.b > Span(horizontal, R) ==> s == 0
  {
    match mode
    case Full => 0
    case EdgeOnly(b) => if Span(horizontal, R) - 2 * b < 0 then 0 else Span(horizontal, R) - 2 * b
  }

  /** What a pass reading S and writing over P leaves at pixel (px, py): inside the rectangle,
      what the line loop leaves at that position of its line; outside, P's pixel. */
  function Out(S: seq<bv32>, P: seq<bv32>, w: nat, h: nat, horizontal: bool, R: Rect, mode: Mode,
               r: nat, avg: Average, px: int, py: int): (p: bv32)
    requires |S| == w * h && |P| == w * h && Within(R, w, h) && 0 <= px < w && 0 <= py < h
    ensures AlphaOf(p) == AlphaOf(P[Idx(w, h, px, py)])
  {
    if InRect(R, px, py) then
      var k := LineNo(horizontal, R, px, py);
      var l := NthLine(horizontal, R, k);
      LineOut(LineOf(S, w, h, l), r, Test(horizontal, R, mode, k), Skip(horizontal, R, mode), avg,
              Along(horizontal, R, px, py), P[Idx(w, h, px, py)])
    else P[Idx(w, h, px, py)]
  }

  /** The image a pass leaves in its destination. */
  function PassResult(S: seq<bv32>, P: seq<bv32>, w: nat, h: nat, horizontal: bool, R: Rect, mode: Mode,
                      r: nat, avg: Average): (D: seq<bv32>)
    requires |S| == w * h && |P| == w * h && Within(R, w, h)
    ensures |D| == w * h
  {
    seq(w * h, j requires 0 <= j < w * h =>
      Cell(w, h, j);
      Out(S, P, w, h, horizontal, R, mode, r, avg, j % w, j / w))
  }

  /** Pixel (px, py) of the result is Out. */
  lemma PassResultAt(S: seq<bv32>, P: seq<bv32>, w: nat, h: nat, horizontal: bool, R: Rect, mode: Mode,
                     r: nat, avg: Average, px: int, py: int)
    requires |S| == w * h && |P| == w * h && Within(R, w, h) && 0 <= px < w && 0 <= py < h
    ensures PassResult(S, P, w, h, horizontal, R, mode, r, avg)[Idx(w, h, px, py)]
         == Out(S, P, w, h, horizontal, R, mode, r, avg, px, py)
  {
    IdxDivMod(w, h, px, py);
  }

  /** The first k lines of the pass are done, the rest of the image is as it was (P). */
  ghost predicate Done(D: seq<bv32>, P: seq<bv32>, S: seq<bv32>, w: nat, h: nat, horizontal: bool, R: Rect,
                       mode: Mode, r: nat, avg: Average, k: int)
  {
    |D| == w * h && |P| == w * h && |S| == w * h && Within(R, w, h) &&
    forall px, py :: 0 <= px < w && 0 <= py < h ==>
      D[Idx(w, h, px, py)] ==
        if InRect(R, px, py) && LineNo(horizontal, R, px, py) < k
        then Out(S, P, w, h, horizontal, R, mode, r, avg, px, py) else P[Idx(w, h, px, py)]
  }

  /** Running the line loop on line k extends Done by one line. */
  lemma {:induction false} DoneStep(D: seq<bv32>, D1: seq<bv32>, P: seq<bv32>, S: seq<bv32>, w: nat, h: nat,
                                    horizontal: bool, R: Rect, mode: Mode, r: nat, avg: Average, k: int)
    requires Done(D, P, S, w, h, horizontal, R, mode, r, avg, k) && 0 <= k < Count(horizontal, R)
    requires WrittenUpTo(D1, D, LineOf(S, w, h, NthLine(horizontal, R, k)), w, h, NthLine(horizontal, R, k),
                         r, Test(horizontal, R, mode, k), Skip(horizontal, R, mode), avg, Span(horizontal, R))
    ensures Done(D1, P, S, w, h, horizontal, R, mode, r, avg, k + 1)
  {
    forall px, py | 0 <= px < w && 0 <= py < h
      ensures D1[Idx(w, h, px, py)] ==
        if InRect(R, px, py) && LineNo(horizontal, R, px, py) < k + 1
        then Out(S, P, w, h, horizontal, R, mode, r, avg, px, py) else P[Idx(w, h, px, py)]
    {
      DoneStepAt(D, D1, P, S, w, h, horizontal, R, mode, r, avg, k, px, py);
    }
  }

  /** The same, at one pixel (px, py). */
  lemma {:induction false} DoneStepAt(D: seq<bv32>, D1: seq<bv32>, P: seq<bv32>, S: seq<bv32>, w: nat, h: nat,
                                      horizontal: bool, R: Rect, mode: Mode, r: nat, avg: Average, k: int,
                                      px: int, py: int)
    requires Done(D, P, S, w, h, horizontal, R, mode, r, avg, k) && 0 <= k < Count(horizontal, R)
    requires WrittenUpTo(D1, D, LineOf(S, w, h, NthLine(horizontal, R, k)), w, h, NthLine(horizontal, R, k),
                         r, Test(horizontal, R, mode, k), Skip(horizontal, R, mode), avg, Span(horizontal, R))
    requires 0 <= px < w && 0 <= py < h
    ensures D1[Idx(w, h, px, py)] ==
              if InRect(R, px, py) && LineNo(horizontal, R, px, py) < k + 1
              then Out(S, P, w, h, horizontal, R, mode, r, avg, px, py) else P[Idx(w, h, px, py)]
  {
    var l := NthLine(horizontal, R, k);
    var j := Idx(w, h, px, py);
    if OnLine(l, px, py) {
      var i := Along(horizontal, R, px, py);
      assert PX(l, i) == px && PY(l, i) == py;
      assert At(w, h, l, i) == j;
      assert InRect(R, px, py) && LineNo(horizontal, R, px, py) == k;
      assert D[j] == P[j];
      assert D1[j] == LineOut(LineOf(S, w, h, l), r, Test(horizontal, R, mode, k), Skip(horizontal, R, mode), avg, i, D[j]);
    } else {
      assert D1[j] == D[j];
      assert !(InRect(R, px, py) && LineNo(horizontal, R, px, py) == k);
    }
  }

  /** All lines done: the destination is PassResult. */
  lemma {:induction false} DoneAll(D: seq<bv32>, P: seq<bv32>, S: seq<bv32>, w: nat, h: nat,
                                   horizontal: bool, R: Rect, mode: Mode, r: nat, avg: Average)
    requires Done(D, P, S, w, h, horizontal, R, mode, r, avg, Count(horizontal, R))
    ensures D == PassResult(S, P, w, h, horizontal, R, mode, r, avg)
  {
    var E := PassResult(S, P, w, h, horizontal, R, mode, r, avg);
    forall j | 0 <= j < w * h
      ensures D[j] == E[j]
    {
      Cell(w, h, j);
      PassResultAt(S, P, w, h, horizontal, R, mode, r, avg, j % w, j / w);
    }
  }

  /** The jump of an edge-only pass never leaves the middle loop: when it fires, the
      positions it passes over end at least r + 1 before the end of the line. */
  lemma SkipFits(horizontal: bool, R: Rect, mode: Mode, r: nat, k: int)
    ensures Fires(Span(horizontal, R), r, Test(horizontal, R, mode, k)) ==>
            Test(horizontal, R, mode, k) + Skip(horizontal, R, mode) + 1 <= Span(horizontal, R) - r
  {
  }

  /** One pass: lines 0 .. Count-1, each by BlurLine, reading `src` and writing `dest`. */
  method BoxBlurPass(src: array<bv32>, dest: array<bv32>, w: nat, h: nat, horizontal: bool, R: Rect,
                     mode: Mode, r: nat, avg: Average)
    requires src != dest && src.Length == w * h && dest.Length == w * h && Within(R, w, h)
    requires Count(horizontal, R) > 0 ==> 2 * r + 1 <= Span(horizontal, R)
    modifies dest
    ensures dest[..] == PassResult(src[..], old(dest[..]), w, h, horizontal, R, mode, r, avg)
  {
    ghost var P := dest[..];
    var n := Count(horizontal, R);
    var skip := Skip(horizontal, R, mode);
    var k := 0;
    while k < n
      invariant 0 <= k <= n
      invariant Done(dest[..], P, src[..], w, h, horizontal, R, mode, r, avg, k)
    {
      var l := NthLine(horizontal, R, k);
      var test := Test(horizontal, R, mode, k);
      SkipFits(horizontal, R, mode, r, k);
      ghost var before := dest[..];
      BlurLine(src, dest, w, h, l, r, test, skip, avg);
      DoneStep(before, dest[..], P, src[..], w, h, horizontal, R, mode, r, avg, k);
      k := k + 1;
    }
    DoneAll(dest[..], P, src[..], w, h, horizontal, R, mode, r, avg);
  }

  /** `boxBlurH_4RGBFull`: every row of the image. */
  method BoxBlurHFull(src: array<bv32>, dest: array<bv32>, w: nat, h: nat, r: nat, avg: Average)
    requires src != dest && src.Length == w * h && dest.Length == w * h
    requires h > 0 ==> 2 * r + 1 <= w
    modifies dest
    ensures dest[..] == PassResult(src[..], old(dest[..]), w, h, true, Rect(0, 0, w, h), Full, r, avg)
  {
    BoxBlurPass(src, dest, w, h, true, Rect(0, 0, w, h), Full, r, avg);
  }

  /** `boxBlurT_4RGBFull`: every column of the image. */
  method BoxBlurTFull(src: array<bv32>, dest: array<bv32>, w: nat, h: nat, r: nat, avg: Average)
    requires src != dest && src.Length == w * h && dest.Length == w * h
    requires w > 0 ==> 2 * r + 1 <= h
    modifies dest
    ensures dest[..] == PassResult(src[..], old(dest[..]), w, h, false, Rect(0, 0, w, h), Full, r, avg)
  {
    BoxBlurPass(src, dest, w, h, false, Rect(0, 0, w, h), Full, r, avg);
  }

  /** `boxBlurH_4RGBPartial`: the rows ys .. ye-1 of the rectangle, jumping over the interior
      of the rows in the band. */
  method BoxBlurHPartial(src: array<bv32>, dest: array<bv32>, b: int, w: nat, h: nat, r: nat, R: Rect, avg: Average)
    requires src != dest && src.Length == w * h && dest.Length == w * h && Within(R, w, h)
    requires R.ys < R.ye ==> 2 * r + 1 <= R.xe - R.xs
    modifies dest
    ensures dest[..] == PassResult(src[..], old(dest[..]), w, h, true, R, EdgeOnly(b), r, avg)
  {
    BoxBlurPass(src, dest, w, h, true, R, EdgeOnly(b), r, avg);
  }

  /** `boxBlurT_4RGBPartial`: the columns xs .. xe-1 of the rectangle, jumping over the
      interior of the columns in the band. */
  method BoxBlurTPartial(src: array<bv32>, dest: array<bv32>, b: int, w: nat, h: nat, r: nat, R: Rect, avg: Average)
    requires src != dest && src.Length == w * h && dest.Length == w * h && Within(R, w, h)
    requires R.xs < R.xe ==> 2 * r + 1 <= R.ye - R.ys
    modifies dest
    ensures dest[..] == PassResult(src[..], old(dest[..]), w, h, false, R, EdgeOnly(b), r, avg)
  {
    BoxBlurPass(src, dest, w, h, false, R, EdgeOnly(b), r, avg);
  }

  /** Every pixel keeps the alpha byte the destination held: each write packs `valA`, read
      from the destination pixel it overwrites. */
  lemma {:induction false} PassKeepsAlpha(S: seq<bv32>, P: seq<bv32>, w: nat, h: nat, horizontal: bool, R: Rect,
                                          mode: Mode, r: nat, avg: Average)
    requires |S| == w * h && |P| == w * h && Within(R, w, h)
    ensures forall j :: 0 <= j < w * h ==> AlphaOf(PassResult(S, P, w, h, horizontal, R, mode, r, avg)[j]) == AlphaOf(P[j])
  {
    forall j | 0 <= j < w * h
      ensures AlphaOf(PassResult(S, P, w, h, horizontal, R, mode, r, avg)[j]) == AlphaOf(P[j])
    {
      Cell(w, h, j);
      PassResultAt(S, P, w, h, horizontal, R, mode, r, avg, j % w, j / w);
    }
  }

  /** Nothing outside the rectangle is written. */
  lemma {:induction false} PassOutsideRect(S: seq<bv32>, P: seq<bv32>, w: nat, h: nat, horizontal: bool, R: Rect,
                                           mode: Mode, r: nat, avg: Average, px: int, py: int)
    requires |S| == w * h && |P| == w * h && Within(R, w, h) && 0 <= px < w && 0 <= py < h
    requires !InRect(R, px, py)
    ensures PassResult(S, P, w, h, horizontal, R, mode, r, avg)[Idx(w, h, px, py)] == P[Idx(w, h, px, py)]
  {
    PassResultAt(S, P, w, h, horizontal, R, mode, r, avg, px, py);
  }

  /** Line k is in the band of the edge-only pass: for H, rows strictly between ys + b and
      ye - 2b; for T, columns strictly between xs + b and xe - 2b. */
  predicate InBand(horizontal: bool, R: Rect, b: int, k: int) {
    if horizontal then R.ys + b < R.ys + k < R.ye - 2 * b else R.xs + b < R.xs + k < R.xe - 2 * b
  }

  /** The skip geometry: line k jumps exactly when the pass is edge-only with band width b,
      the line is in the band, and b is one of the positions r+1 .. Span-r-1 the middle loop
      visits. In particular a band width b <= r, 0 included, never jumps. */
  lemma SkipGeometry(horizontal: bool, R: Rect, mode: Mode, r: nat, k: int)
    ensures Fires(Span(horizontal, R), r, Test(horizontal, R, mode, k)) <==>
            mode.EdgeOnly? && InBand(horizontal, R, mode.b, k) && r + 1 <= mode.b <= Span(horizontal, R) - r - 1
    ensures Fires(Span(horizontal, R), r, Test(horizontal, R, mode, k)) ==> Test(horizontal, R, mode, k) == mode.b
  {
  }

  /** The positions a jumping line passes over are b+1 .. Span-b when Span >= 2b (none
      otherwise): they keep the pixel the destination held. */
  lemma {:induction false} SkippedKeepInput(S: seq<bv32>, P: seq<bv32>, w: nat, h: nat, horizontal: bool, R: Rect,
                                            mode: Mode, r: nat, avg: Average, px: int, py: int)
    requires |S| == w * h && |P| == w * h && Within(R, w, h) && 0 <= px < w && 0 <= py < h && InRect(R, px, py)
    requires Fires(Span(horizontal, R), r, Test(horizontal, R, mode, LineNo(horizontal, R, px, py)))
    requires mode.b < Along(horizontal, R, px, py) <= Span(horizontal, R) - mode.b
    ensures PassResult(S, P, w, h, horizontal, R, mode, r, avg)[Idx(w, h, px, py)] == P[Idx(w, h, px, py)]
  {
    PassResultAt(S, P, w, h, horizontal, R, mode, r, avg, px, py);
    SkipGeometry(horizontal, R, mode, r, LineNo(horizontal, R, px, py));
  }

  /** The pass never jumps, or jumps over nothing: a full pass, a band width b <= r, a
      line too short to have an interior (Span <= 2b), or no line in the band (Count <= 3b+1). */
  predicate NeverSkips(horizontal: bool, R: Rect, mode: Mode, r: nat) {
    mode.Full? || mode.b <= r || Span(horizontal, R) <= 2 * mode.b || Count(horizontal, R) <= 3 * mode.b + 1
  }

  /** When the pass never skips, every pixel of the rectangle receives the average of its
      clamped window (the pixels beyond either end of the line replicated from its first and
      last pixel), with the alpha the destination held. */
  lemma {:induction false} PassIsBoxAverage(S: seq<bv32>, P: seq<bv32>, w: nat, h: nat, horizontal: bool, R: Rect,
                                            mode: Mode, r: nat, avg: Average, px: int, py: int)
    requires |S| == w * h && |P| == w * h && Within(R, w, h) && 0 <= px < w && 0 <= py < h && InRect(R, px, py)
    requires NeverSkips(horizontal, R, mode, r)
    ensures var L := LineOf(S, w, h, NthLine(horizontal, R, LineNo(horizontal, R, px, py)));
            var i := Along(horizontal, R, px, py);
            PassResult(S, P, w, h, horizontal, R, mode, r, avg)[Idx(w, h, px, py)]
            == Pack(AlphaOf(P[Idx(w, h, px, py)]), avg(r, Win(L, i, r, Blue)), avg(r, Win(L, i, r, Green)), avg(r, Win(L, i, r, Red)))
  {
    var k := LineNo(horizontal, R, px, py);
    PassResultAt(S, P, w, h, horizontal, R, mode, r, avg, px, py);
    SkipGeometry(horizontal, R, mode, r, k);
    if Fires(Span(horizontal, R), r, Test(horizontal, R, mode, k)) {
      assert Skip(horizontal, R, mode) == 0;
    }
  }

  /** With r = 0 a pass that never skips copies its input: each window is the pixel itself
      and `iar` is exactly 1.0. */
  lemma {:induction false} PassRadiusZero(S: seq<bv32>, w: nat, h: nat, horizontal: bool, R: Rect, mode: Mode, avg: Average)
    requires |S| == w * h && Within(R, w, h) && NeverSkips(horizontal, R, mode, 0) && ExactAtRadiusZero(avg)
    ensures PassResult(S, S, w, h, horizontal, R, mode, 0, avg) == S
  {
    var D := PassResult(S, S, w, h, horizontal, R, mode, 0, avg);
    forall j | 0 <= j < w * h
      ensures D[j] == S[j]
    {
      Cell(w, h, j);
      RadiusZeroAt(S, w, h, horizontal, R, mode, avg, j % w, j / w);
    }
  }

  /** The radius-0 pass at one pixel. */
  lemma {:induction false} RadiusZeroAt(S: seq<bv32>, w: nat, h: nat, horizontal: bool, R: Rect, mode: Mode, avg: Average,
                                        px: int, py: int)
    requires |S| == w * h && Within(R, w, h) && NeverSkips(horizontal, R, mode, 0) && ExactAtRadiusZero(avg)
    requires 0 <= px < w && 0 <= py < h
    ensures PassResult(S, S, w, h, horizontal, R, mode, 0, avg)[Idx(w, h, px, py)] == S[Idx(w, h, px, py)]
  {
    PassResultAt(S, S, w, h, horizontal, R, mode, 0, avg, px, py);
    if InRect(R, px, py) {
      var k := LineNo(horizontal, R, px, py);
      var l := NthLine(horizontal, R, k);
      var i := Along(horizontal, R, px, py);
      SkipGeometry(horizontal, R, mode, 0, k);
      assert At(w, h, l, i) == Idx(w, h, px, py);
      RadiusZeroKeepsLine(LineOf(S, w, h, l), Test(horizontal, R, mode, k), Skip(horizontal, R, mode), avg, i,
                          S[Idx(w, h, px, py)]);
    }
  }

  /** A uniform image is a fixed point of every pass, full or edge-only: every window sums
      2r+1 copies of the same pixel and the skipped pixels keep it. */
  lemma {:induction false} PassUniformFixed(S: seq<bv32>, p: bv32, w: nat, h: nat, horizontal: bool, R: Rect,
                                            mode: Mode, r: nat, avg: Average)
    requires |S| == w * h && Within(R, w, h) && Uniform(S, p) && ExactOnMultiples(avg)
    ensures PassResult(S, S, w, h, horizontal, R, mode, r, avg) == S
  {
    var D := PassResult(S, S, w, h, horizontal, R, mode, r, avg);
    forall j | 0 <= j < w * h
      ensures D[j] == S[j]
    {
      Cell(w, h, j);
      var px, py := j % w, j / w;
      PassResultAt(S, S, w, h, horizontal, R, mode, r, avg, px, py);
      if InRect(R, px, py) {
        var l := NthLine(horizontal, R, LineNo(horizontal, R, px, py));
        var L := LineOf(S, w, h, l);
        assert Uniform(L, p);
        UniformLineIsFixed(L, p, r, Test(horizontal, R, mode, LineNo(horizontal, R, px, py)), Skip(horizontal, R, mode),
                           avg, Along(horizontal, R, px, py), S[j]);
      }
    }
  }
}
