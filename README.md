# UnPixeledCairo pixel transforms in Dafny

A model of the three pixel-buffer transforms of UnPixeledCairo, the C# helpers that work
directly on the pixel buffer of a Cairo `ImageSurface`: a flat, row-major array of packed
32-bit pixels.

- **Gaussian blur** (`util/SurfaceTransformBlur.cs`).
  - The entry points `BlurFull` and `BlurPartial` check their arguments and clamp the blur
    range.
  - They then run a `GaussianBlur`: three box blurs whose widths `boxesForGauss` plans.
  - The blurs ping-pong between the class's private copy `src` and the surface buffer.
  - Each box blur copies its input, then runs a horizontal and a vertical sliding-window pass.
  - Each pass exists in a full variant and in an edge-only variant. The edge-only variant works
    on a rectangle and jumps over the interior of the lines in a band.
- **Demultiply** (`util/SurfaceDemultiplyAlpha.cs`). `DemulAlpha` divides every pixel's
  colour channels by its alpha, in place, with channel shifts chosen by endianness.
- **Image compositing** (`util/SurfaceDrawImage.cs`).
  - `Image` composites an already resized bitmap onto the surface at a position.
  - It uses a single linear bound check on the destination index.
  - `ColorOverlay` is the per-pixel "over" operator.

## How it is modelled

- **Pixels and buffers.** A pixel is a `bv32` and a buffer an `array<bv32>`. Each file keeps its
  own layout:
  - blur: red bits 0-7, green 8-15, blue 16-23, alpha 24-31 (`BlurPixel`);
  - overlay: alpha 24-31, red 16-23, green 8-15, blue 0-7 (`DrawImage`);
  - demultiply: a `Shifts` value, chosen as the source does (`Demultiply`).
- **The surface.** `Surfaces.ImageSurface` is a class with width, height, pixel buffer and the
  `MarkDirty` flag.
- **Imperative code stays imperative.** These are methods with loops over the arrays:
  - every loop of the blur: the copy loops, the seed loop and the left, middle and right loops
    of each line, split across `BlurKernel`;
  - the nested loop of `DemulAlpha`;
  - the nested loop of `Image`.
- **Specification functions.** Each method is proved against one:
  - a pass against `BlurPasses.PassResult`;
  - a box blur against `Gaussian.BoxStage`;
  - the three-pass blur against `Gaussian.Gauss`;
  - the demultiply loop against `Demultiply.DemulPixel`;
  - the blit against `DrawImage.Blit`.

  The properties the source promises are then lemmas about those functions.
- **Floating-point steps are parameters.** Each comes with the exact-arithmetic fact it is
  trusted with:
  - the averaging `(byte)(val * iar)` is `BlurPixel.Average`;
  - the two results of the `Math.Sqrt`/`Math.Floor` and `Math.Round` steps of `boxesForGauss`
    are integers `wFloor` and `m`, tied to sigma by the ghost predicate `PlannedFrom`;
  - the float division of `DemulAlpha` is `Demultiply.Quotient`;
  - the two float expressions of `ColorOverlay` form `DrawImage.Compositor`.

  A lemma that needs such a parameter to be exact names the hypothesis in its `requires`, for
  example `ExactAtRadiusZero`, `ExactOnMultiples`, `ExactWhenOpaque` and `OpaqueOverExact`.
- **The running sums `valR`/`valG`/`valB` are exact integers in the source.** The central loop
  invariant (`BlurKernel.Acc`) is therefore exact. At every position the accumulator equals the
  window sum over the clamped positions, less `BlurWindow.Drift`.
  - Drift is 0 until the edge-only jump.
  - After the jump it is the constant offset the stale accumulator carries.
- **Behaviour the model follows as the code does it:**
  - **Band width 0.** An edge-only blur with band width 0 blurs the whole rectangle; it is not a
    no-op. The jump test compares the counter with `xs + 0`, which the middle loop never
    reaches (`BlurPasses.SkipGeometry`).
  - **Band edges.** The band is not symmetric, and the jump passes over positions b+1 .. Span-b
    of a line (`BlurPasses.SkippedKeepInput`):
    - on the left, positions 0 .. b of the line are written;
    - on the right, positions Span-b+1 .. Span-1 are written, so the pixel b-1 from the right
      edge is skipped;
    - the rows (columns) in the band are those strictly between `ys + b` and `ye - 2b`.
  - **Values after the jump.** Past the jump the accumulator is not recomputed, so those
    outputs are not window averages. The model states exactly what they are (`LineOut` with
    `Drift`) and claims window averages only where no jump happens or before it
    (`BlurWindow.BeforeJumpIsBoxAverage`, `BlurPasses.PassIsBoxAverage`).
  - **Zero alpha.** Alpha 0 in `DemulAlpha` and `aTotal` 0 in `ColorOverlay` are unguarded
    divisions. What the cast returns there is left to the float parameter, not fixed.
  - **Wrapping writes.** A bitmap column past the surface's right edge wraps into the next
    row, as the code does (`DrawImage.WrapsIntoNextRow`).

## Model

| member | source | states |
|---|---|---|
| BlurPixel.Pack | util/SurfaceTransformBlur.cs:193-194 | a written pixel unpacks to exactly the alpha, blue, green and red bytes packed into it |
| BlurPixel.Repack | util/SurfaceTransformBlur.cs:164-171 | packing a pixel's four extracted bytes gives back the pixel, so the blur's layout uses all 32 bits |
| BlurPixel.IdealAverageIsExact | util/SurfaceTransformBlur.cs:156 | exact truncating division by 2r+1 is exact at r = 0 and on sums of 2r+1 equal bytes, so the two averaging hypotheses can be met |
| BlurWindow.SeedWindow | util/SurfaceTransformBlur.cs:173-183 | the seed `(r+1)*fv` plus the first r pixels is the clamped window around position -1 |
| BlurWindow.Slide | util/SurfaceTransformBlur.cs:197-207 | adding the entering clamped sample and dropping the leaving one moves the window sum one position |
| BlurWindow.LineOut | util/SurfaceTransformBlur.cs:193-194 | the pixel a line position receives keeps the alpha of the destination pixel it overwrites |
| BlurWindow.NoJumpIsBoxAverage | util/SurfaceTransformBlur.cs:173-219 | without a jump (or with a jump over nothing) every position gets the average of its window, replicating the first and last pixel beyond the ends |
| BlurWindow.BeforeJumpIsBoxAverage | util/SurfaceTransformBlur.cs:354-373 | up to the jump position even a jumping line gets window averages |
| BlurWindow.RadiusZeroKeepsLine | util/SurfaceTransformBlur.cs:156 | with r = 0 and `iar` exactly 1, a non-jumping line position gets back its own pixel |
| BlurWindow.UniformLineIsFixed | util/SurfaceTransformBlur.cs:173-219 | a line of one colour is left as that colour at every written position, jump or not (idealised averaging) |
| BlurKernel.Seed | util/SurfaceTransformBlur.cs:173-183 | the seed loop leaves `valR/valG/valB` at `(r+1)*fv` plus the sum of the line's first r pixels, per channel |
| BlurKernel.LeftLoop | util/SurfaceTransformBlur.cs:185-195 | positions 0..r are written with their averages, subtracting the replicated first pixel; the accumulator is the clamped window sum |
| BlurKernel.MiddleLoop | util/SurfaceTransformBlur.cs:356-374 | positions r+1..len-r-1 are written, the jump at `testx`/`testy` passes `skip` positions and moves all three cursors; the accumulator is the window sum less the drift |
| BlurKernel.RightLoop | util/SurfaceTransformBlur.cs:209-219 | the last r positions are written, adding the replicated last pixel; the whole line is then done |
| BlurKernel.Emit | util/SurfaceTransformBlur.cs:199-206 | one loop body: the accumulators move by entering minus leaving channel and the position gets LineOut |
| BlurKernel.AccJump | util/SurfaceTransformBlur.cs:367-373 | after the jump with unchanged accumulators, they lag the window by exactly the drift |
| BlurKernel.BlurLine | util/SurfaceTransformBlur.cs:313-387 | one row or column: every position of the line ends as LineOut of the source line, nothing off the line changes |
| BlurPasses.BoxBlurPass | util/SurfaceTransformBlur.cs:313-387 | running the line loop on every line of the rectangle leaves exactly PassResult in the destination |
| BlurPasses.BoxBlurHFull | util/SurfaceTransformBlur.cs:154-221 | the full horizontal pass leaves PassResult over every row of the image |
| BlurPasses.BoxBlurTFull | util/SurfaceTransformBlur.cs:223-295 | the full vertical pass leaves PassResult over every column, stride w |
| BlurPasses.BoxBlurHPartial | util/SurfaceTransformBlur.cs:301-388 | the edge-only horizontal pass leaves PassResult over the rectangle's rows, with the row jump |
| BlurPasses.BoxBlurTPartial | util/SurfaceTransformBlur.cs:390-478 | the edge-only vertical pass leaves PassResult over the rectangle's columns, with the column jump |
| BlurPasses.Test | util/SurfaceTransformBlur.cs:354 | line k gets the jump position b when the pass is edge-only and b < k < Count-2b (rows between `y1` and `y2`; the T pass at :440 the same on columns); every other line gets -1, a position no loop visits |
| BlurPasses.Skip | util/SurfaceTransformBlur.cs:311 | `max(0, Span - 2b)` (`xSkip`, and `ySkip` at :398): a full pass skips 0; when 2b <= Span the jump from b lands on the mirror position Span-b; otherwise it skips 0 |
| BlurPasses.SkipFits | util/SurfaceTransformBlur.cs:311 | when the jump fires it never carries the middle loop past its end |
| BlurPasses.PassKeepsAlpha | util/SurfaceTransformBlur.cs:193-218 | every pixel after a pass has the alpha the destination held before it |
| BlurPasses.PassOutsideRect | util/SurfaceTransformBlur.cs:313-387 | a pass changes no pixel outside its rectangle |
| BlurPasses.SkipGeometry | util/SurfaceTransformBlur.cs:307-311 | a line jumps if and only if the pass is edge-only, the line is strictly inside the band and r+1 <= b <= Span-r-1; it jumps at local position b; b <= r never jumps |
| BlurPasses.SkippedKeepInput | util/SurfaceTransformBlur.cs:367-373 | on a jumping line, positions b+1..Span-b keep the destination's pixel |
| BlurPasses.PassIsBoxAverage | util/SurfaceTransformBlur.cs:173-219 | when the pass never jumps, each rectangle pixel gets its clamped-window average with its old alpha |
| BlurPasses.PassRadiusZero | util/SurfaceTransformBlur.cs:156 | a non-jumping pass of radius 0 over a copy of its input returns the input |
| BlurPasses.PassUniformFixed | util/SurfaceTransformBlur.cs:313-387 | a uniform image is a fixed point of every pass, full or edge-only |
| Gaussian.Lower | util/SurfaceTransformBlur.cs:121 | `wl` is the largest odd integer not above the floor: odd, and wFloor-1 <= wl <= wFloor |
| Gaussian.BoxWidths | util/SurfaceTransformBlur.cs:127-129 | the planned list has exactly n widths |
| Gaussian.BoxesForGauss | util/SurfaceTransformBlur.cs:117-130 | the list builder returns BoxWidths: `wl` for the first m boxes and `wl+2` after |
| Gaussian.BoxWidthsShape | util/SurfaceTransformBlur.cs:120-128 | n widths, all odd, each `wl` or `wl+2`, non-decreasing, and at least 1 when the floor is |
| Gaussian.PlannedWidthAtLeastOne | util/SurfaceTransformBlur.cs:119-120 | the floor of the ideal width is at least 1 for every sigma |
| Gaussian.ZeroSigmaPlansUnitBoxes | util/SurfaceTransformBlur.cs:119-128 | sigma 0 plans three boxes of width 1 |
| Gaussian.Radius | util/SurfaceTransformBlur.cs:112-114 | `(width-1)/2` of an odd width is an exact radius: 2r+1 is the width |
| Gaussian.BoxKeepsAlpha | util/SurfaceTransformBlur.cs:134-144 | one `boxBlur_4` leaves every pixel's alpha unchanged |
| Gaussian.GaussKeepsAlpha | util/SurfaceTransformBlur.cs:109-115 | the three-pass blur leaves every pixel's alpha unchanged |
| Gaussian.BoxOutsideRect | util/SurfaceTransformBlur.cs:136-139 | a box blur leaves pixels outside its rectangle unchanged |
| Gaussian.GaussOutsideRect | util/SurfaceTransformBlur.cs:109-115 | the three-pass blur leaves pixels outside its rectangle unchanged |
| Gaussian.GaussRadiusZero | util/SurfaceTransformBlur.cs:109-115 | three non-jumping box blurs of radius 0 return the image unchanged |
| Gaussian.GaussUniformFixed | util/SurfaceTransformBlur.cs:109-115 | a uniform image is a fixed point of the three-pass blur, full or edge-only |
| Gaussian.GaussianBlur.constructor | util/SurfaceTransformBlur.cs:70-76 | a fresh private copy equal to the image, and the image remembered |
| Gaussian.GaussianBlur.LoadImage | util/SurfaceTransformBlur.cs:84-92 | the image is remembered and its w*h pixels copied into `src` |
| Gaussian.GaussianBlur.ProcessFull | util/SurfaceTransformBlur.cs:101-107 | the image ends as the planned three-pass blur of the private copy over the whole image |
| Gaussian.GaussianBlur.ProcessPartial | util/SurfaceTransformBlur.cs:94-100 | the image ends as the planned edge-only three-pass blur of the copy on the rectangle |
| Gaussian.GaussianBlur.GaussBlur4 | util/SurfaceTransformBlur.cs:109-115 | the result is Gauss of the input in destP, with srcP holding the last horizontal pass |
| Gaussian.GaussianBlur.BoxBlur4 | util/SurfaceTransformBlur.cs:132-147 | after the copy and the two passes destP holds BoxStage and srcP HStage of the input |
| SurfaceBlur.Half | util/SurfaceTransformBlur.cs:17 | C#'s `/ 2` truncates toward zero: the remainder `n - 2q` is 0 or 1 for n >= 0 and 0 or -1 for n < 0, so a negative odd n rounds up; on n >= 0 it agrees with Dafny's `/` |
| SurfaceBlur.ClampAsWritten | util/SurfaceTransformBlur.cs:17 | the clamp is the smaller of the range and `min(W,H)/2 - 1.5` |
| SurfaceBlur.ClampRange | util/SurfaceTransformBlur.cs:43 | the corrected clamp is the one as written, raised to 0 when that is negative |
| SurfaceBlur.ThinSurfaceBoxOverflows | util/SurfaceTransformBlur.cs:17 | as written, a 1-pixel-wide surface clamps to -1.5 and plans boxes of width >= 3 that do not fit |
| SurfaceBlur.ThinSurfaceExample | util/SurfaceTransformBlur.cs:119-128 | a 1x1 surface with range 5 plans the widths [3, 3, 3] |
| SurfaceBlur.NegativeRangeAsWritten | util/SurfaceTransformBlur.cs:17 | as written, range -2 on a 100x100 surface stays -2 and plans [3, 3, 5]; the corrected clamp gives 0 |
| SurfaceBlur.ClampedPlanFits | util/SurfaceTransformBlur.cs:43 | after the corrected clamp every planned box fits the surface |
| SurfaceBlur.ClampedBoxesBounded | util/SurfaceTransformBlur.cs:119-128 | a sigma of 0, or positive and within the clamp's bound, plans no box wider than min(W,H) |
| SurfaceBlur.BlurFull | util/SurfaceTransformBlur.cs:40-54 | an empty surface throws with the message and changes nothing; otherwise the surface holds the full three-pass blur and is dirty |
| SurfaceBlur.BlurPartial | util/SurfaceTransformBlur.cs:14-38 | with the range clamped as written: empty rectangle: return, nothing changed; reversed: throws; empty surface: throws (each if and only if); otherwise the edge-band blur, dirty |
| SurfaceBlur.BlurPartialWhole | util/SurfaceTransformBlur.cs:10-13 | with the range clamped as written: the edge band of the whole surface; an empty surface returns without throwing |
| Demultiply.ShiftsAsWritten | util/SurfaceDemultiplyAlpha.cs:18-29 | little-endian: R/G/B/A at 24/16/8/0; otherwise 0/8/16/24; the four channels in four different bytes |
| Demultiply.ChannelShifts | util/SurfaceDemultiplyAlpha.cs:18-22 | the corrected shifts are Cairo's ARGB32 order, A/R/G/B at 24/16/8/0; their alpha shift differs from the source's only on little-endian machines |
| Demultiply.DemulPixel | util/SurfaceDemultiplyAlpha.cs:40-53 | one pixel rewritten: every bit of the old alpha byte, in place, is still set, because the unmasked quotients are or-ed in and can add bits but never clear them; what lands in each channel is stated by DemulPixelBytes, OpaqueUnchanged and SpillExample |
| Demultiply.Byte | util/SurfaceDemultiplyAlpha.cs:42-45 | an extracted channel is at most 255 |
| Demultiply.DemulPixelBytes | util/SurfaceDemultiplyAlpha.cs:42-53 | when the quotients fit, the rewritten pixel holds each quotient in its channel and the old alpha |
| Demultiply.PremultipliedKeepsAlpha | util/SurfaceDemultiplyAlpha.cs:45-53 | a pixel whose channels are at most its non-zero alpha keeps its alpha byte |
| Demultiply.OpaqueUnchanged | util/SurfaceDemultiplyAlpha.cs:47-53 | a pixel with alpha 255 is unchanged bit for bit, in both layouts as written and in the corrected one |
| Demultiply.LittleEndianOpaqueCorrupted | util/SurfaceDemultiplyAlpha.cs:23-29 | as written on little-endian, opaque ARGB32 0xFF102030 comes out with alpha 0x4A |
| Demultiply.CorrectedOpaqueUnchanged | util/SurfaceDemultiplyAlpha.cs:47-53 | with alpha in the high byte, an opaque pixel is unchanged |
| Demultiply.SpillExample | util/SurfaceDemultiplyAlpha.cs:49-53 | a channel above alpha overflows its byte and spills unmasked into alpha: with the single-precision quotient 65024, ARGB32 0x01FF0000 becomes 0xFF000000 |
| Demultiply.DemulAlpha | util/SurfaceDemultiplyAlpha.cs:35-55 | every index `y*width+x` of the buffer is rewritten once to DemulPixel of its old value |
| Demultiply.DemulAlphaCorrected | util/SurfaceDemultiplyAlpha.cs:10-60 | with the corrected shifts, every pixel is demultiplied, opaque pixels stay unchanged and premultiplied ones keep their alpha |
| Demultiply.CorrectedKeepsAlpha | util/SurfaceDemultiplyAlpha.cs:45-53 | with the corrected shifts a premultiplied ARGB32 pixel keeps its high byte |
| DrawImage.ColorOverlay | util/SurfaceDrawImage.cs:33-53 | the base and overlay are unpacked ARGB and composited channel by channel; the blue byte of the result is the blue result cut to 8 bits, and the alpha byte holds every bit of the composited alpha's low byte, to which overflowing colour results can only add bits; OverlayLayout and OpaqueOverlayWins state the rest |
| DrawImage.Channel8 | util/SurfaceDrawImage.cs:35-46 | an extracted channel is at most 255 |
| DrawImage.OverlayLayout | util/SurfaceDrawImage.cs:35-52 | the overlay is packed alpha 24, red 16, green 8, blue 0, the layout it reads: unpacking gives the composited values |
| DrawImage.PackBytes | util/SurfaceDrawImage.cs:48-52 | four bytes packed ARGB unpack to themselves |
| DrawImage.Unpack | util/SurfaceDrawImage.cs:35-46 | repacking a pixel's four bytes gives the pixel |
| DrawImage.OpaqueOverlayWins | util/SurfaceDrawImage.cs:35-52 | an overlay with alpha 255 yields exactly the overlay pixel, whatever the base |
| DrawImage.SourceAt | util/SurfaceDrawImage.cs:22 | a footprint index maps to a bitmap index inside the bitmap |
| DrawImage.FootprintExact | util/SurfaceDrawImage.cs:22-23 | bitmap pixel (x, y) lands on j if and only if j is in the footprint and (x, y) is its source |
| DrawImage.WrapsIntoNextRow | util/SurfaceDrawImage.cs:23-24 | a column past the surface's right edge lands at the start of the next row |
| DrawImage.BlitOpaqueCopies | util/SurfaceDrawImage.cs:18-27 | an opaque bitmap is copied onto its footprint |
| DrawImage.BlitColumn | util/SurfaceDrawImage.cs:20-26 | the rows of one bitmap column are composited where their index is below W*H |
| DrawImage.Image | util/SurfaceDrawImage.cs:9-31 | the surface ends as Blit: footprint indices below W*H composited with their bitmap pixel, all others unchanged; then marked dirty |

## Left out

- Floating point. These steps are parameters of the model, not computed:
  - the double-precision averaging `(byte)(val * iar)`;
  - `Math.Sqrt`, `Math.Floor` and `Math.Round` in `boxesForGauss`;
  - the float divisions of `DemulAlpha` and `ColorOverlay`.

  Properties that need them hold under the named exactness hypotheses. The output alpha of
  `ColorOverlay` being truncated rather than rounded is stated only as the meaning of
  `Compositor.alpha`.
- The fixed-point lemmas use `ExactOnMultiples`. It holds for exact division (`IdealAverage`)
  but not for every radius in doubles (`49 * (1.0 / 49)` is below 1).
- `ResizeImage` (SkiaSharp resampling) is not part of this model. `Image` takes the resized
  bitmap as an array with its width and height.
- Other parts of the library:
  - the second `GaussianBlur(width, height)` constructor (`util/SurfaceTransformBlur.cs:77-82`)
    has no caller in the core;
  - `Dispose` of the bitmap is not modelled;
  - unsafe pointers and `fixed` are modelled as arrays.
- `ImageSurface` is a stand-in with width, height, buffer and a dirty flag. `MarkDirty` only
  sets the flag. `DemulAlpha` does not mark the surface dirty, as in the source.
- 32-bit overflow of index arithmetic (`y * w`, `(y + yPos) * surfaceWidth`) is not modelled.
  Indices are unbounded integers.
- SurfaceBlur.BlurPartial: requires the rectangle to lie on the surface and the planned boxes
  to fit it. The source checks neither, and otherwise reads and writes outside the rows or the
  buffer.
- SurfaceBlur.BlurPartialWhole: requires the planned boxes to fit the surface. The source does
  not check this, and with the clamp as written they do not fit a surface one to three pixels
  thin (see Findings).
- SurfaceBlur.BlurFull uses the corrected clamp `ClampRange`, so a negative range plans unit
  boxes where the source plans from the range's magnitude. With it the planned boxes always fit
  (`ClampedPlanFits`). The clamp as written is `ClampAsWritten` (see Findings), which
  `BlurPartial` and `BlurPartialWhole` use.
- BlurPasses.BoxBlurHFull, BlurPasses.BoxBlurTFull, BlurPasses.BoxBlurHPartial and
  BlurPasses.BoxBlurTPartial: require 2r+1 to be at most the line length. Otherwise the source's
  windows read outside the row, column or buffer.
- DrawImage.Image: requires `xPos, yPos >= 0`, because negative positions give negative indices
  outside the buffer.
- DrawImage.Image: requires the bitmap to be no wider than the surface. Otherwise two bitmap
  pixels can land on the same index, and the result depends on the loop order.
- Demultiply.DemulAlpha: makes no claim about alpha-0 pixels. The source's division by zero
  is left to the `Quotient` parameter.
- Outputs after the edge-only jump are stated exactly, as window sums less a stale offset. They
  are not claimed to be averages.

## Findings

| source | as written | input that shows it | evidently intended | confidence | as-written member | corrected member |
|---|---|---|---|---|---|---|
| util/SurfaceTransformBlur.cs:17 | `range = Math.Min(range, Math.Min(W, H) / 2 - 1.5)` has no lower bound, and a negative sigma plans boxes as large as its absolute value does | a 1x1 surface with range 5: sigma becomes -1.5 and `boxesForGauss` plans three boxes of width 3, wider than the surface | clamp at 0 too, so that every planned box fits the surface | not executed; high | SurfaceBlur.ThinSurfaceBoxOverflows | SurfaceBlur.ClampedPlanFits |
| util/SurfaceDemultiplyAlpha.cs:23-29 | on little-endian machines alpha is read from bits 0-7 of the pixel read as a `uint`, but Cairo's ARGB32 keeps alpha in bits 24-31 of that value on every machine | opaque pixel 0xFF102030: blue 0x30 is taken as alpha and the red quotient 1354 spills, so the pixel comes out with alpha 0x4A | the ARGB32 shifts on every machine: alpha 24, red 16, green 8, blue 0, as `ColorOverlay` reads them | not executed; high | Demultiply.LittleEndianOpaqueCorrupted | Demultiply.DemulAlphaCorrected |
