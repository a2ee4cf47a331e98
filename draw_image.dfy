/** util/SurfaceDrawImage.cs: `ColorOverlay`, the "over" compositing of one pixel onto
    another, and `Image`, which composites an already resized bitmap onto a surface at a
    position, pixel by pixel. Pixels here are ARGB: alpha in bits 24-31, red 16-23, green 8-15,
    blue 0-7. */
module DrawImage {
  import opened BlurGrid
  import opened Surfaces

  /** `(p >> shift) & 0xff`, kept as a `uint`: the same extraction as `Demultiply.Byte`,
      declared again here because each source file unpacks pixels on its own. */
  function Channel8(p: bv32, shift: bv32): (v: bv32)
    requires shift <= 24
    ensures v <= 255
  {
    (p >> shift) & 0xFF
  }

  /** The two floating-point steps of `ColorOverlay`, on the alpha bytes aBase, aOver and the
      channel bytes cOver, cBase (each at most 255):
      alpha(aBase, aOver) is `(uint)(255f * aTotal)` with `aTotal = aOver + aBase * (1 - aOver)`
      (alphas scaled to [0, 1]), truncated rather than rounded; channel(cOver, cBase, aOver,
      aBase) is `(uint)((cOver * aOver + cBase * aBase * (1 - aOver)) / aTotal)`. When both
      alphas are 0, aTotal is 0 and the division is unguarded: what the cast then gives is up
      to the platform. */
  datatype Compositor = Compositor(alpha: (bv32, bv32) -> bv32, channel: (bv32, bv32, bv32, bv32) -> bv32)

  /** An opaque overlay makes aOver exactly 1, so aTotal is exactly 1: the alpha comes out 255
      and each channel exactly the overlay's. */
  ghost predicate OpaqueOverExact(comp: Compositor) {
    (forall aBase: bv32 :: aBase <= 255 ==> comp.alpha(aBase, 255) == 255) &&
    (forall cOver: bv32, cBase: bv32, aBase: bv32 :: cOver <= 255 && cBase <= 255 && aBase <= 255 ==>
       comp.channel(cOver, cBase, 255, aBase) == cOver)
  }

  /** Four values shifted into the four bytes of a pixel, alpha first, and or-ed together. */
  function Pack(a: bv32, r: bv32, g: bv32, b: bv32): bv32 {
    (a << 24) | (r << 16) | (g << 8) | (b << 0)
  }

  /** `ColorOverlay(rgbaBase, rgbaOver)`: unpack both pixels, composite, pack the four results,
      unmasked, in the same layout. The blue byte of the result is the blue result cut to
      8 bits; the alpha byte holds every bit of the composited alpha's low byte, to which
      overflowing colour results can only add bits. */
  function ColorOverlay(base: bv32, over: bv32, comp: Compositor): (q: bv32)
    ensures var aB, aO := Channel8(base, 24), Channel8(over, 24);
            Channel8(q, 0) == comp.channel(Channel8(over, 0), Channel8(base, 0), aO, aB) & 0xFF &&
            Channel8(q, 24) & (comp.alpha(aB, aO) & 0xFF) == comp.alpha(aB, aO) & 0xFF
  {
    var aB, aO := Channel8(base, 24), Channel8(over, 24);
    var rB, gB, bB := Channel8(base, 16), Channel8(base, 8), Channel8(base, 0);
    var rO, gO, bO := Channel8(over, 16), Channel8(over, 8), Channel8(over, 0);
    Pack(comp.alpha(aB, aO), comp.channel(rO, rB, aO, aB), comp.channel(gO, gB, aO, aB), comp.channel(bO, bB, aO, aB))
  }

  /** When the four composited values fit in a byte, unpacking the result gives them back:
      the result is packed in the layout the inputs were read in. */
  lemma OverlayLayout(base: bv32, over: bv32, comp: Compositor)
    requires var aB, aO := Channel8(base, 24), Channel8(over, 24);
             comp.alpha(aB, aO) <= 255 &&
             comp.channel(Channel8(over, 16), Channel8(base, 16), aO, aB) <= 255 &&
             comp.channel(Channel8(over, 8), Channel8(base, 8), aO, aB) <= 255 &&
             comp.channel(Channel8(over, 0), Channel8(base, 0), aO, aB) <= 255
    ensures var q, aB, aO := ColorOverlay(base, over, comp), Channel8(base, 24), Channel8(over, 24);
            Channel8(q, 24) == comp.alpha(aB, aO) &&
            Channel8(q, 16) == comp.channel(Channel8(over, 16), Channel8(base, 16), aO, aB) &&
            Channel8(q, 8) == comp.channel(Channel8(over, 8), Channel8(base, 8), aO, aB) &&
            Channel8(q, 0) == comp.channel(Channel8(over, 0), Channel8(base, 0), aO, aB)
  {
    var aB, aO := Channel8(base, 24), Channel8(over, 24);
    PackBytes(comp.alpha(aB, aO), comp.channel(Channel8(over, 16), Channel8(base, 16), aO, aB),
              comp.channel(Channel8(over, 8), Channel8(base, 8), aO, aB),
              comp.channel(Channel8(over, 0), Channel8(base, 0), aO, aB));
  }

  /** Bytes packed by `Pack` unpack to themselves. */
  lemma PackBytes(a: bv32, r: bv32, g: bv32, b: bv32)
    requires a <= 255 && r <= 255 && g <= 255 && b <= 255
    ensures var q := Pack(a, r, g, b);
            Channel8(q, 24) == a && Channel8(q, 16) == r && Channel8(q, 8) == g && Channel8(q, 0) == b
  {
  }

  /** An opaque overlay replaces the base pixel outright, whatever the base. */
  lemma OpaqueOverlayWins(base: bv32, over: bv32, comp: Compositor)
    requires OpaqueOverExact(comp) && Channel8(over, 24) == 255
    ensures ColorOverlay(base, over, comp) == over
  {
    var aB := Channel8(base, 24);
    assert comp.alpha(aB, 255) == 255;
    assert comp.channel(Channel8(over, 16), Channel8(base, 16), 255, aB) == Channel8(over, 16);
    assert comp.channel(Channel8(over, 8), Channel8(base, 8), 255, aB) == Channel8(over, 8);
    assert comp.channel(Channel8(over, 0), Channel8(base, 0), 255, aB) == Channel8(over, 0);
    Unpack(over);
  }

  /** Unpacking a pixel and packing its bytes again gives the pixel. */
  lemma Unpack(p: bv32)
    ensures Pack(Channel8(p, 24), Channel8(p, 16), Channel8(p, 8), Channel8(p, 0)) == p
  {
  }

  /** `(y + yPos) * surfaceWidth + x + xPos`: where bitmap pixel (x, y) lands. */
  function DestIndex(W: int, xPos: int, yPos: int, x: int, y: int): int {
    (y + yPos) * W + x + xPos
  }

  /** Index j of the surface is covered by the bitmap: counted from the index of the bitmap's
      top-left pixel, j is y whole surface rows and x more pixels, with (x, y) in the bitmap. */
  predicate InFootprint(j: int, W: int, xPos: int, yPos: int, width: int, height: int) {
    var t := j - (yPos * W + xPos);
    W > 0 && 0 <= t && t % W < width && t / W < height
  }

  /** The bitmap pixel that lands on index j of the footprint. */
  function SourceAt(j: int, W: int, xPos: int, yPos: int, width: int, height: int): (k: int)
    requires InFootprint(j, W, xPos, yPos, width, height)
    ensures 0 <= k < width * height
  {
    var t := j - (yPos * W + xPos);
    Idx(width, height, t % W, t / W)
  }

  /** The surface after `Image`: every footprint index below W * H composited with its bitmap
      pixel, every other index as it was. */
  function Blit(D: seq<bv32>, S: seq<bv32>, W: int, xPos: int, yPos: int, width: int, height: int,
                comp: Compositor): (E: seq<bv32>)
    requires |S| == width * height
    ensures |E| == |D|
  {
    seq(|D|, j requires 0 <= j < |D| =>
      if InFootprint(j, W, xPos, yPos, width, height)
      then ColorOverlay(D[j], S[SourceAt(j, W, xPos, yPos, width, height)], comp)
      else D[j])
  }

  /** The footprint is exactly the set of indices the loop computes: with the bitmap no wider
      than the surface, (x, y) lands on j if and only if j is in the footprint and (x, y) is
      the pixel SourceAt names. */
  lemma {:induction false} FootprintExact(W: int, xPos: int, yPos: int, width: int, height: int, x: int, y: int, j: int)
    requires 0 <= xPos && 0 <= yPos && 0 <= width <= W && 0 <= x < width && 0 <= y < height
    ensures DestIndex(W, xPos, yPos, x, y) == j <==>
              InFootprint(j, W, xPos, yPos, width, height) && SourceAt(j, W, xPos, yPos, width, height) == Idx(width, height, x, y)
  {
    DestIndexSplit(W, xPos, yPos, x, y);
    if DestIndex(W, xPos, yPos, x, y) == j {
      FootprintOf(W, xPos, yPos, width, height, x, y);
    }
    if InFootprint(j, W, xPos, yPos, width, height) && SourceAt(j, W, xPos, yPos, width, height) == Idx(width, height, x, y) {
      FootprintBack(W, xPos, yPos, width, height, x, y, j);
    }
  }

  /** The index of (x, y) is the index of the bitmap's corner plus y rows and x pixels. */
  lemma DestIndexSplit(W: int, xPos: int, yPos: int, x: int, y: int)
    ensures DestIndex(W, xPos, yPos, x, y) == (yPos * W + xPos) + (y * W + x)
  {
    assert (y + yPos) * W == y * W + yPos * W;
  }

  lemma {:induction false} FootprintOf(W: int, xPos: int, yPos: int, width: int, height: int, x: int, y: int)
    requires 0 <= xPos && 0 <= yPos && 0 <= width <= W && 0 <= x < width && 0 <= y < height
    ensures InFootprint(DestIndex(W, xPos, yPos, x, y), W, xPos, yPos, width, height)
    ensures SourceAt(DestIndex(W, xPos, yPos, x, y), W, xPos, yPos, width, height) == Idx(width, height, x, y)
  {
    DestIndexSplit(W, xPos, yPos, x, y);
    IdxDivMod(W, height, x, y);
    var t := DestIndex(W, xPos, yPos, x, y) - (yPos * W + xPos);
    assert t == Idx(W, height, x, y);
    assert t % W == x && t / W == y;
  }

  lemma {:induction false} FootprintBack(W: int, xPos: int, yPos: int, width: int, height: int, x: int, y: int, j: int)
    requires 0 <= xPos && 0 <= yPos && 0 <= width <= W && 0 <= x < width && 0 <= y < height
    requires InFootprint(j, W, xPos, yPos, width, height)
    requires SourceAt(j, W, xPos, yPos, width, height) == Idx(width, height, x, y)
    ensures DestIndex(W, xPos, yPos, x, y) == j
  {
    var t := j - (yPos * W + xPos);
    IdxInjective(width, height, t % W, t / W, x, y);
    DivModSplit(t, W);
    DestIndexSplit(W, xPos, yPos, x, y);
  }

  lemma DivModSplit(t: int, W: int)
    requires W > 0
    ensures t == (t / W) * W + t % W
  {
  }

  /** A bitmap column past the surface's right edge wraps to the start of the next row: there
      is no per-row check. */
  lemma WrapsIntoNextRow(W: int, xPos: int, yPos: int, x: int, y: int)
    requires W <= x + xPos
    ensures DestIndex(W, xPos, yPos, x, y) == DestIndex(W, x + xPos - W, yPos, 0, y + 1)
  {
  }

  /** Blitting an opaque bitmap copies it: every footprint pixel becomes its bitmap pixel. */
  lemma {:induction false} BlitOpaqueCopies(D: seq<bv32>, S: seq<bv32>, W: int, xPos: int, yPos: int,
                                            width: int, height: int, comp: Compositor)
    requires |S| == width * height && OpaqueOverExact(comp)
    requires forall k :: 0 <= k < |S| ==> Channel8(S[k], 24) == 255
    ensures forall j :: 0 <= j < |D| && InFootprint(j, W, xPos, yPos, width, height) ==>
              Blit(D, S, W, xPos, yPos, width, height, comp)[j] == S[SourceAt(j, W, xPos, yPos, width, height)]
  {
    forall j | 0 <= j < |D| && InFootprint(j, W, xPos, yPos, width, height)
      ensures Blit(D, S, W, xPos, yPos, width, height, comp)[j] == S[SourceAt(j, W, xPos, yPos, width, height)]
    {
      OpaqueOverlayWins(D[j], S[SourceAt(j, W, xPos, yPos, width, height)], comp);
    }
  }

  /** The pixels (px, py) of the bitmap before (x, y) in the loop's order (columns, then rows
      within a column) have been composited where they land below n; the rest not yet. */
  ghost predicate BlitUpTo(D: seq<bv32>, D0: seq<bv32>, S: seq<bv32>, W: int, xPos: int, yPos: int,
                           width: int, height: int, comp: Compositor, x: int, y: int)
    requires |D| == |D0| && |S| == width * height && 0 <= xPos && 0 <= yPos
  {
    (forall px, py :: 0 <= px < width && 0 <= py < height && 0 <= DestIndex(W, xPos, yPos, px, py) < |D| ==>
       D[DestIndex(W, xPos, yPos, px, py)] ==
         if px < x || (px == x && py < y)
         then ColorOverlay(D0[DestIndex(W, xPos, yPos, px, py)], S[Idx(width, height, px, py)], comp)
         else D0[DestIndex(W, xPos, yPos, px, py)]) &&
    (forall j :: 0 <= j < |D| && !InFootprint(j, W, xPos, yPos, width, height) ==> D[j] == D0[j])
  }

  /** The index of each bitmap pixel is at least 0. */
  lemma DestIndexNonNegative(W: int, xPos: int, yPos: int, x: int, y: int)
    requires 0 <= W && 0 <= xPos && 0 <= yPos && 0 <= x && 0 <= y
    ensures DestIndex(W, xPos, yPos, x, y) >= 0
  {
    assert (y + yPos) * W >= 0;
  }

  /** One iteration of the inner loop: composite (x, y) if it lands below n. */
  lemma {:induction false} BlitStep(D: seq<bv32>, D0: seq<bv32>, S: seq<bv32>, W: int, xPos: int, yPos: int,
                                    width: int, height: int, comp: Compositor, x: int, y: int)
    requires |D| == |D0| && |S| == width * height && 0 <= xPos && 0 <= yPos && 0 <= width <= W
    requires 0 <= x < width && 0 <= y < height
    requires BlitUpTo(D, D0, S, W, xPos, yPos, width, height, comp, x, y)
    ensures var j := DestIndex(W, xPos, yPos, x, y);
            0 <= j &&
            (j < |D| ==>
               D[j] == D0[j] &&
               BlitUpTo(D[j := ColorOverlay(D[j], S[Idx(width, height, x, y)], comp)], D0, S, W, xPos, yPos,
                        width, height, comp, x, y + 1)) &&
            (j >= |D| ==> BlitUpTo(D, D0, S, W, xPos, yPos, width, height, comp, x, y + 1))
  {
    var j := DestIndex(W, xPos, yPos, x, y);
    DestIndexNonNegative(W, xPos, yPos, x, y);
    if j < |D| {
      var E := D[j := ColorOverlay(D[j], S[Idx(width, height, x, y)], comp)];
      FootprintExact(W, xPos, yPos, width, height, x, y, j);
      forall px, py | 0 <= px < width && 0 <= py < height && 0 <= DestIndex(W, xPos, yPos, px, py) < |E|
        ensures E[DestIndex(W, xPos, yPos, px, py)] ==
          if px < x || (px == x && py < y + 1)
          then ColorOverlay(D0[DestIndex(W, xPos, yPos, px, py)], S[Idx(width, height, px, py)], comp)
          else D0[DestIndex(W, xPos, yPos, px, py)]
      {
        if px != x || py != y {
          FootprintExact(W, xPos, yPos, width, height, px, py, j);
          if SourceAt(j, W, xPos, yPos, width, height) == Idx(width, height, px, py) {
            IdxInjective(width, height, px, py, x, y);
          }
        }
      }
    }
  }

  /** A column finished down to its last row is the same state as the next column not begun. */
  lemma {:induction false} BlitNextColumn(D: seq<bv32>, D0: seq<bv32>, S: seq<bv32>, W: int, xPos: int, yPos: int,
                                          width: int, height: int, comp: Compositor, x: int)
    requires |D| == |D0| && |S| == width * height && 0 <= xPos && 0 <= yPos && 0 <= height
    requires BlitUpTo(D, D0, S, W, xPos, yPos, width, height, comp, x, height)
    ensures BlitUpTo(D, D0, S, W, xPos, yPos, width, height, comp, x + 1, 0)
  {
    forall px, py | 0 <= px < width && 0 <= py < height && 0 <= DestIndex(W, xPos, yPos, px, py) < |D|
      ensures (px < x || (px == x && py < height)) == (px < x + 1 || (px == x + 1 && py < 0))
    {
    }
  }

  /** After the last column, the surface is the blit of its old contents. */
  lemma {:induction false} BlitDone(D: seq<bv32>, D0: seq<bv32>, S: seq<bv32>, W: int, xPos: int, yPos: int,
                                    width: int, height: int, comp: Compositor)
    requires |D| == |D0| && |S| == width * height && 0 <= xPos && 0 <= yPos && 0 <= width <= W && 0 <= height
    requires BlitUpTo(D, D0, S, W, xPos, yPos, width, height, comp, width, 0)
    ensures D == Blit(D0, S, W, xPos, yPos, width, height, comp)
  {
    var E := Blit(D0, S, W, xPos, yPos, width, height, comp);
    forall j | 0 <= j < |D|
      ensures D[j] == E[j]
    {
      BlitDoneAt(D, D0, S, W, xPos, yPos, width, height, comp, j);
    }
  }

  /** The same, at one index j of the surface. */
  lemma {:induction false} BlitDoneAt(D: seq<bv32>, D0: seq<bv32>, S: seq<bv32>, W: int, xPos: int, yPos: int,
                                      width: int, height: int, comp: Compositor, j: int)
    requires |D| == |D0| && |S| == width * height && 0 <= xPos && 0 <= yPos && 0 <= width <= W && 0 <= height
    requires BlitUpTo(D, D0, S, W, xPos, yPos, width, height, comp, width, 0)
    requires 0 <= j < |D|
    ensures D[j] == Blit(D0, S, W, xPos, yPos, width, height, comp)[j]
  {
    if InFootprint(j, W, xPos, yPos, width, height) {
      var t := j - (yPos * W + xPos);
      var px, py := t % W, t / W;
      FootprintExact(W, xPos, yPos, width, height, px, py, j);
      assert SourceAt(j, W, xPos, yPos, width, height) == Idx(width, height, px, py);
      assert DestIndex(W, xPos, yPos, px, py) == j;
    }
  }

  /** `Image(bmp, xPos, yPos, width, height)` on the bitmap already resized to width x height:
      for each column x and each row y of it, the pixel lands at `(y + yPos) * W + x + xPos`
      and is composited over the surface pixel there when that index is below W * H (the only
      bound check); then the surface is marked dirty. */
  method Image(surface: ImageSurface, resized: array<bv32>, xPos: int, yPos: int, width: nat, height: nat,
               comp: Compositor)
    requires surface.Valid() && resized.Length == width * height && resized != surface.data
    requires 0 <= xPos && 0 <= yPos && width <= surface.width
    modifies surface, surface.data
    ensures surface.width == old(surface.width) && surface.height == old(surface.height)
    ensures surface.data == old(surface.data) && surface.Valid() && surface.dirty
    ensures surface.data[..] == Blit(old(surface.data[..]), resized[..], surface.width, xPos, yPos, width, height, comp)
  {
    var destPixels := surface.data;
    var surfaceWidth := surface.width;
    var surfaceMaxIndex := surface.width * surface.height;
    ghost var D0 := destPixels[..];
    var x := 0;
    while x < width
      modifies destPixels
      invariant 0 <= x <= width && destPixels.Length == surfaceMaxIndex
      invariant BlitUpTo(destPixels[..], D0, resized[..], surfaceWidth, xPos, yPos, width, height, comp, x, 0)
    {
      BlitColumn(destPixels, resized, surfaceWidth, surfaceMaxIndex, xPos, yPos, width, height, comp, x, D0);
      x := x + 1;
    }
    BlitDone(destPixels[..], D0, resized[..], surfaceWidth, xPos, yPos, width, height, comp);
    surface.MarkDirty();
  }

  /** The inner loop of `Image`: the rows y of bitmap column x, top to bottom. */
  method BlitColumn(destPixels: array<bv32>, resized: array<bv32>, surfaceWidth: int, surfaceMaxIndex: int,
                    xPos: int, yPos: int, width: nat, height: nat, comp: Compositor, x: int, ghost D0: seq<bv32>)
    requires destPixels != resized && destPixels.Length == surfaceMaxIndex == |D0| && resized.Length == width * height
    requires 0 <= xPos && 0 <= yPos && width <= surfaceWidth && 0 <= x < width
    requires BlitUpTo(destPixels[..], D0, resized[..], surfaceWidth, xPos, yPos, width, height, comp, x, 0)
    modifies destPixels
    ensures BlitUpTo(destPixels[..], D0, resized[..], surfaceWidth, xPos, yPos, width, height, comp, x + 1, 0)
  {
    var bitmapWidth := width;
    var y := 0;
    while y < height
      invariant 0 <= y <= height
      invariant BlitUpTo(destPixels[..], D0, resized[..], surfaceWidth, xPos, yPos, width, height, comp, x, y)
    {
      var sourceIndex := y * bitmapWidth + x;
      var destIndex := (y + yPos) * surfaceWidth + x + xPos;
      assert sourceIndex == Idx(width, height, x, y);
      assert destIndex == DestIndex(surfaceWidth, xPos, yPos, x, y);
      BlitStep(destPixels[..], D0, resized[..], surfaceWidth, xPos, yPos, width, height, comp, x, y);
      if destIndex < surfaceMaxIndex {
        destPixels[destIndex] := ColorOverlay(destPixels[destIndex], resized[sourceIndex], comp);
      }
      y := y + 1;
    }
    BlitNextColumn(destPixels[..], D0, resized[..], surfaceWidth, xPos, yPos, width, height, comp, x);
  }
}
