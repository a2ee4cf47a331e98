/** The arithmetic of one line of a box-blur pass (util/SurfaceTransformBlur.cs), over the
    line's pixels L as a sequence: clamped samples, window sums, the skip of the edge-only
    passes, and the pixel each position of the line receives. */
module BlurWindow {
  import opened BlurPixel

  /** Position k clamped into the line: the passes replicate the first pixel (`fv`) to the
      left of the line and the last pixel (`lv`) to the right of it. */
  function Clamp(k: int, len: nat): (j: int)
    requires len > 0
    ensures 0 <= j < len
  {
    if k < 0 then 0 else if k >= len then len - 1 else k
  }

  /** Channel c of the clamped sample at position k. */
  function Sample(L: seq<bv32>, k: int, c: Channel): int
    requires |L| > 0
  {
    Ch(L[Clamp(k, |L|)], c)
  }

  /** The sum of the clamped samples at positions lo .. hi-1. */
  function Sum(L: seq<bv32>, lo: int, hi: int, c: Channel): int
    requires |L| > 0
    decreases hi - lo
  {
    if hi <= lo then 0 else Sum(L, lo, hi - 1, c) + Sample(L, hi - 1, c)
  }

  /** The window of radius r around position i: positions i-r .. i+r, clamped. */
  function Win(L: seq<bv32>, i: int, r: nat, c: Channel): int
    requires |L| > 0
  {
    Sum(L, i - r, i + r + 1, c)
  }

  /** A sum splits at its first sample. */
  lemma {:induction false} SumFront(L: seq<bv32>, lo: int, hi: int, c: Channel)
    requires |L| > 0 && lo < hi
    ensures Sum(L, lo, hi, c) == Sample(L, lo, c) + Sum(L, lo + 1, hi, c)
    decreases hi - lo
  {
    if lo + 1 < hi {
      SumFront(L, lo, hi - 1, c);
    }
  }

  /** A sum splits at any middle position. */
  lemma {:induction false} SumSplit(L: seq<bv32>, lo: int, mid: int, hi: int, c: Channel)
    requires |L| > 0 && lo <= mid <= hi
    ensures Sum(L, lo, hi, c) == Sum(L, lo, mid, c) + Sum(L, mid, hi, c)
    decreases hi - mid
  {
    if mid < hi {
      SumSplit(L, lo, mid, hi - 1, c);
    }
  }

  /** Left of the line every sample is the first pixel: n of them add up to n times it. */
  lemma {:induction false} SumLeftEdge(L: seq<bv32>, lo: int, hi: int, c: Channel)
    requires |L| > 0 && lo <= hi <= 1
    ensures Sum(L, lo, hi, c) == (hi - lo) * Ch(L[0], c)
    decreases hi - lo
  {
    if lo < hi {
      SumLeftEdge(L, lo, hi - 1, c);
      MulSucc(hi - 1 - lo, Ch(L[0], c));
    }
  }

  /** The accumulator the passes start from, `(r + 1) * fv` plus the first r pixels, is the
      window around position -1. */
  lemma {:induction false} SeedWindow(L: seq<bv32>, r: nat, c: Channel)
    requires |L| > 0
    ensures Win(L, -1, r, c) == (r + 1) * Ch(L[0], c) + Sum(L, 0, r, c)
  {
    SumSplit(L, -1 - r, 0, r, c);
    SumLeftEdge(L, -1 - r, 0, c);
  }

  /** One step of the sliding window: add the sample entering on the right, drop the one
      leaving on the left. */
  lemma {:induction false} Slide(L: seq<bv32>, i: int, r: nat, c: Channel)
    requires |L| > 0
    ensures Win(L, i, r, c) == Win(L, i - 1, r, c) + Sample(L, i + r, c) - Sample(L, i - r - 1, c)
  {
    SumFront(L, i - r - 1, i + r + 1, c);
  }

  /** With radius 0 the window is the pixel itself. */
  lemma {:induction false} WindowRadiusZero(L: seq<bv32>, i: int, c: Channel)
    requires 0 <= i < |L|
    ensures Win(L, i, 0, c) == Ch(L[i], c)
  {
    assert Sum(L, i, i, c) == 0;
  }

  /** The sum of a stretch of a line whose pixels all equal p. */
  lemma {:induction false} SumUniform(L: seq<bv32>, p: bv32, lo: int, hi: int, c: Channel)
    requires |L| > 0 && Uniform(L, p) && lo <= hi
    ensures Sum(L, lo, hi, c) == (hi - lo) * Ch(p, c)
    decreases hi - lo
  {
    if lo < hi {
      SumUniform(L, p, lo, hi - 1, c);
      assert L[Clamp(hi - 1, |L|)] == p;
      MulStep(Sum(L, lo, hi, c), Sum(L, lo, hi - 1, c), lo, hi, Ch(p, c));
    } else {
      MulZero(lo, hi, Ch(p, c));
    }
  }

  lemma MulSucc(n: int, v: int)
    ensures (n + 1) * v == n * v + v
  {
  }

  lemma MulZero(lo: int, hi: int, v: int)
    requires lo == hi
    ensures (hi - lo) * v == 0
  {
  }

  /** One more term v turns (hi - 1 - lo) copies of v into hi - lo of them. */
  lemma MulStep(total: int, prev: int, lo: int, hi: int, v: int)
    requires prev == (hi - 1 - lo) * v && total == prev + v
    ensures total == (hi - lo) * v
  {
    MulSucc(hi - 1 - lo, v);
  }

  /** Every pixel of the line is p. */
  predicate Uniform(L: seq<bv32>, p: bv32) {
    forall k :: 0 <= k < |L| ==> L[k] == p
  }

  /** The middle loop of an edge-only pass jumps when its counter reaches local position
      `test`; that can only happen when `test` is one of the positions r+1 .. len-r-1 the
      middle loop visits. The full passes use test = -1, which never fires. */
  predicate Fires(len: int, r: nat, test: int) {
    r + 1 <= test <= len - r - 1
  }

  /** Position i is jumped over: the pass never writes it. */
  predicate Skipped(len: int, r: nat, test: int, skip: nat, i: int) {
    Fires(len, r, test) && test < i <= test + skip
  }

  /** The jump moves the counter and the cursors but leaves the accumulator at the window of
      `test`. Every later position therefore sees its window minus this constant offset. */
  function Offset(L: seq<bv32>, r: nat, test: int, skip: nat, c: Channel): int
    requires |L| > 0
  {
    Win(L, test + skip, r, c) - Win(L, test, r, c)
  }

  /** The error in the accumulator at position i: the offset past the jump, none before it. */
  function Drift(L: seq<bv32>, r: nat, test: int, skip: nat, i: int, c: Channel): int
    requires |L| > 0
  {
    if Fires(|L|, r, test) && i > test + skip then Offset(L, r, test, skip, c) else 0
  }

  /** The pixel a pass leaves at position i of a line whose destination held `prev`: a skipped
      position keeps `prev`; any other gets prev's alpha and, per channel, the average of
      the accumulator, which is the window sum less the drift. */
  function LineOut(L: seq<bv32>, r: nat, test: int, skip: nat, avg: Average, i: int, prev: bv32): (p: bv32)
    requires |L| > 0
    ensures AlphaOf(p) == AlphaOf(prev)
  {
    if Skipped(|L|, r, test, skip, i) then prev
    else Pack(AlphaOf(prev),
              avg(r, Win(L, i, r, Blue) - Drift(L, r, test, skip, i, Blue)),
              avg(r, Win(L, i, r, Green) - Drift(L, r, test, skip, i, Green)),
              avg(r, Win(L, i, r, Red) - Drift(L, r, test, skip, i, Red)))
  }

  /** Without a jump, or with a jump over nothing, every position receives the average of its
      clamped window. */
  lemma NoJumpIsBoxAverage(L: seq<bv32>, r: nat, test: int, skip: nat, avg: Average, i: int, prev: bv32)
    requires |L| > 0 && (!Fires(|L|, r, test) || skip == 0)
    ensures LineOut(L, r, test, skip, avg, i, prev)
      == Pack(AlphaOf(prev), avg(r, Win(L, i, r, Blue)), avg(r, Win(L, i, r, Green)), avg(r, Win(L, i, r, Red)))
  {
  }

  /** Up to the jump, even a line that jumps receives window averages. */
  lemma BeforeJumpIsBoxAverage(L: seq<bv32>, r: nat, test: int, skip: nat, avg: Average, i: int, prev: bv32)
    requires |L| > 0 && i <= test
    ensures LineOut(L, r, test, skip, avg, i, prev)
      == Pack(AlphaOf(prev), avg(r, Win(L, i, r, Blue)), avg(r, Win(L, i, r, Green)), avg(r, Win(L, i, r, Red)))
  {
  }

  /** Radius 0 without a jump (or with a jump over nothing) reproduces each pixel, provided
      the averaging step is exact when `iar` is 1.0 and the destination already holds the
      pixel's alpha. */
  lemma {:induction false} RadiusZeroKeepsLine(L: seq<bv32>, test: int, skip: nat, avg: Average, i: int, prev: bv32)
    requires 0 <= i < |L| && (!Fires(|L|, 0, test) || skip == 0)
    requires ExactAtRadiusZero(avg) && AlphaOf(prev) == AlphaOf(L[i])
    ensures LineOut(L, 0, test, skip, avg, i, prev) == L[i]
  {
    var p := L[i];
    WindowRadiusZero(L, i, Blue);
    WindowRadiusZero(L, i, Green);
    WindowRadiusZero(L, i, Red);
    assert avg(0, Val(ChannelByte(p, Blue))) == ChannelByte(p, Blue);
    assert avg(0, Val(ChannelByte(p, Green))) == ChannelByte(p, Green);
    assert avg(0, Val(ChannelByte(p, Red))) == ChannelByte(p, Red);
    Repack(p);
  }

  /** A line of one colour p is left as p, jump or no jump: every window sums 2r+1 copies of
      the same byte, so the drift is 0 too. This needs an averaging step that is exact on
      such sums, which IdealAverage is and the double-precision `val * iar` is not always. */
  lemma {:induction false} UniformLineIsFixed(L: seq<bv32>, p: bv32, r: nat, test: int, skip: nat, avg: Average, i: int, prev: bv32)
    requires |L| > 0 && Uniform(L, p) && ExactOnMultiples(avg) && AlphaOf(prev) == AlphaOf(p)
    ensures LineOut(L, r, test, skip, avg, i, prev) == (if Skipped(|L|, r, test, skip, i) then prev else p)
  {
    if !Skipped(|L|, r, test, skip, i) {
      UniformWindow(L, p, r, i, Blue);
      UniformWindow(L, p, r, i, Green);
      UniformWindow(L, p, r, i, Red);
      UniformWindow(L, p, r, test, Blue);
      UniformWindow(L, p, r, test, Green);
      UniformWindow(L, p, r, test, Red);
      UniformWindow(L, p, r, test + skip, Blue);
      UniformWindow(L, p, r, test + skip, Green);
      UniformWindow(L, p, r, test + skip, Red);
      Repack(p);
    }
  }

  lemma {:induction false} UniformWindow(L: seq<bv32>, p: bv32, r: nat, i: int, c: Channel)
    requires |L| > 0 && Uniform(L, p)
    ensures Win(L, i, r, c) == Copies(r, ChannelByte(p, c))
  {
    SumUniform(L, p, i - r, i + r + 1, c);
  }
}
