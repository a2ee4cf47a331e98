/** `DemulAlpha` of util/SurfaceDemultiplyAlpha.cs: turns every premultiplied pixel of a
    surface into a straight one, in place, by dividing its colour channels by alpha / 255. */
module Demultiply {
  import opened BlurGrid
  import opened Surfaces

  /** Where each channel sits in the 32-bit pixel: the shift of its byte. */
  datatype Shifts = Shifts(r: bv32, g: bv32, b: bv32, a: bv32)

  predicate ByteShift(s: bv32) {
    s == 0 || s == 8 || s == 16 || s == 24
  }

  /** The four channels occupy the four different bytes of the pixel. */
  predicate Layout(s: Shifts) {
    ByteShift(s.r) && ByteShift(s.g) && ByteShift(s.b) && ByteShift(s.a) &&
    s.r != s.g && s.r != s.b && s.r != s.a && s.g != s.b && s.g != s.a && s.b != s.a
  }

  /** The shifts as the source chooses them: alpha in the low byte on a little-endian machine,
      in the high byte otherwise. The pixels are read as whole `uint`s, whose value does not
      depend on the byte order, so the choice puts alpha in a different place on the two
      kinds of machine. */
  function ShiftsAsWritten(littleEndian: bool): (s: Shifts)
    ensures Layout(s)
    ensures s.a == (if littleEndian then 0 else 24)
    ensures littleEndian ==> s.r == 24 && s.g == 16 && s.b == 8
    ensures !littleEndian ==> s.r == 0 && s.g == 8 && s.b == 16
  {
    if littleEndian then Shifts(24, 16, 8, 0) else Shifts(0, 8, 16, 24)
  }

  /** The shifts on every machine, corrected: Cairo's ARGB32 layout, alpha in the high byte
      of the value, then red, green and blue, as `ColorOverlay` reads it. */
  function ChannelShifts(): (s: Shifts)
    ensures Layout(s) && s.a == 24 && s.r == 16 && s.g == 8 && s.b == 0
    ensures forall littleEndian :: s.a != ShiftsAsWritten(littleEndian).a ==> littleEndian
  {
    Shifts(16, 8, 0, 24)
  }

  /** One of the three layouts of this model: the source's two (`ShiftsAsWritten`) and the
      corrected one (`ChannelShifts`). */
  predicate KnownLayout(s: Shifts) {
    s == ShiftsAsWritten(false) || s == ShiftsAsWritten(true) || s == ChannelShifts()
  }

  /** The byte at shift s, kept as a `uint` as the source does: `(color >> s) & 0xff`. */
  function Byte(p: bv32, s: bv32): (v: bv32)
    requires s <= 24
    ensures v <= 255
  {
    (p >> s) & 0xFF
  }

  /** The floating-point step `(uint)(c / (a / 255f))`, as a function of the channel and the
      alpha, each at most 255. Alpha 0 divides by zero; what the cast then gives is up to the
      platform. */
  type Quotient = (bv32, bv32) -> bv32

  /** With alpha 255, `a / 255f` is exactly 1 and the channel comes back unchanged. */
  ghost predicate ExactWhenOpaque(quot: Quotient) {
    forall c: bv32 :: c <= 255 ==> quot(c, 255) == c
  }

  /** A premultiplied channel is at most its alpha, and then the quotient fits in a byte. */
  ghost predicate FitsWhenPremultiplied(quot: Quotient) {
    forall c: bv32, a: bv32 :: 0 < a <= 255 && c <= a ==> quot(c, a) <= 255
  }

  /** A zero channel stays zero: 0 divided by any non-zero float is 0. */
  ghost predicate ZeroStaysZero(quot: Quotient) {
    forall a: bv32 :: 0 < a <= 255 ==> quot(0, a) == 0
  }

  /** One pixel of `DemulAlpha`: the three colour channels replaced by their quotients, the
      alpha byte put back as it was; the shifted quotients are not masked, so an overflowing
      quotient can set bits of the alpha byte but never clear one. */
  function DemulPixel(p: bv32, s: Shifts, quot: Quotient): (q: bv32)
    requires Layout(s)
    ensures var old_a := Byte(p, s.a) << s.a; q & old_a == old_a
  {
    var r, g, b, a := Byte(p, s.r), Byte(p, s.g), Byte(p, s.b), Byte(p, s.a);
    (quot(r, a) << s.r) | (quot(g, a) << s.g) | (quot(b, a) << s.b) | (a << s.a)
  }

  /** The quotients of pixel p's three channels all fit in a byte. */
  predicate QuotientsFit(p: bv32, s: Shifts, quot: Quotient)
    requires Layout(s)
  {
    var a := Byte(p, s.a);
    quot(Byte(p, s.r), a) <= 255 && quot(Byte(p, s.g), a) <= 255 && quot(Byte(p, s.b), a) <= 255
  }

  /** When the quotients fit, each colour byte of the result is its quotient and the alpha
      byte is the pixel's alpha, in every layout. */
  lemma DemulPixelBytes(p: bv32, s: Shifts, quot: Quotient)
    requires KnownLayout(s)
    requires QuotientsFit(p, s, quot)
    ensures DemulBytes(p, s, quot)
  {
    if s == ShiftsAsWritten(false) {
      DemulBytesHigh(p, quot);
    } else if s == ShiftsAsWritten(true) {
      DemulBytesLow(p, quot);
    } else {
      DemulBytesArgb(p, quot);
    }
  }

  /** Each colour byte of the demultiplied pixel is its quotient, the alpha byte the pixel's
      alpha. */
  predicate DemulBytes(p: bv32, s: Shifts, quot: Quotient)
    requires Layout(s)
  {
    var q, a := DemulPixel(p, s, quot), Byte(p, s.a);
    Byte(q, s.a) == a &&
    Byte(q, s.r) == quot(Byte(p, s.r), a) &&
    Byte(q, s.g) == quot(Byte(p, s.g), a) &&
    Byte(q, s.b) == quot(Byte(p, s.b), a)
  }

  lemma DemulBytesHigh(p: bv32, quot: Quotient)
    requires QuotientsFit(p, Shifts(0, 8, 16, 24), quot)
    ensures DemulBytes(p, Shifts(0, 8, 16, 24), quot)
  {
    var a := Byte(p, 24);
    PackedHigh(quot(Byte(p, 0), a), quot(Byte(p, 8), a), quot(Byte(p, 16), a), a);
  }

  lemma DemulBytesLow(p: bv32, quot: Quotient)
    requires QuotientsFit(p, Shifts(24, 16, 8, 0), quot)
    ensures DemulBytes(p, Shifts(24, 16, 8, 0), quot)
  {
    var a := Byte(p, 0);
    PackedLow(quot(Byte(p, 24), a), quot(Byte(p, 16), a), quot(Byte(p, 8), a), a);
  }

  lemma DemulBytesArgb(p: bv32, quot: Quotient)
    requires QuotientsFit(p, Shifts(16, 8, 0, 24), quot)
    ensures DemulBytes(p, Shifts(16, 8, 0, 24), quot)
  {
    var a := Byte(p, 24);
    PackedArgb(quot(Byte(p, 16), a), quot(Byte(p, 8), a), quot(Byte(p, 0), a), a);
  }

  lemma PackedHigh(r: bv32, g: bv32, b: bv32, a: bv32)
    requires r <= 255 && g <= 255 && b <= 255 && a <= 255
    ensures var q := (r << 0) | (g << 8) | (b << 16) | (a << 24);
            Byte(q, 24) == a && Byte(q, 0) == r && Byte(q, 8) == g && Byte(q, 16) == b
  {
  }

  lemma PackedArgb(r: bv32, g: bv32, b: bv32, a: bv32)
    requires r <= 255 && g <= 255 && b <= 255 && a <= 255
    ensures var q := (r << 16) | (g << 8) | (b << 0) | (a << 24);
            Byte(q, 24) == a && Byte(q, 16) == r && Byte(q, 8) == g && Byte(q, 0) == b
  {
  }

  lemma PackedLow(r: bv32, g: bv32, b: bv32, a: bv32)
    requires r <= 255 && g <= 255 && b <= 255 && a <= 255
    ensures var q := (r << 24) | (g << 16) | (b << 8) | (a << 0);
            Byte(q, 0) == a && Byte(q, 24) == r && Byte(q, 16) == g && Byte(q, 8) == b
  {
  }

  /** A premultiplied pixel keeps its alpha, whatever the layout. */
  lemma PremultipliedKeepsAlpha(p: bv32, s: Shifts, quot: Quotient)
    requires KnownLayout(s)
    requires FitsWhenPremultiplied(quot) && Byte(p, s.a) > 0
    requires Byte(p, s.r) <= Byte(p, s.a) && Byte(p, s.g) <= Byte(p, s.a) && Byte(p, s.b) <= Byte(p, s.a)
    ensures Byte(DemulPixel(p, s, quot), s.a) == Byte(p, s.a)
  {
    var a := Byte(p, s.a);
    assert quot(Byte(p, s.r), a) <= 255 && quot(Byte(p, s.g), a) <= 255 && quot(Byte(p, s.b), a) <= 255;
    DemulPixelBytes(p, s, quot);
    assert DemulBytes(p, s, quot);
  }

  /** A pixel whose alpha byte is 255 is left bit for bit as it was. */
  lemma OpaqueUnchanged(p: bv32, s: Shifts, quot: Quotient)
    requires KnownLayout(s)
    requires ExactWhenOpaque(quot) && Byte(p, s.a) == 255
    ensures DemulPixel(p, s, quot) == p
  {
    var r, g, b := Byte(p, s.r), Byte(p, s.g), Byte(p, s.b);
    assert quot(r, 255) == r && quot(g, 255) == g && quot(b, 255) == b;
    if s == Shifts(0, 8, 16, 24) {
      ReassembleHigh(p);
    } else if s == Shifts(24, 16, 8, 0) {
      ReassembleLow(p);
    } else {
      ReassembleArgb(p);
    }
  }

  /** The four bytes of a pixel, shifted back into place, give the pixel: alpha high. */
  lemma ReassembleHigh(p: bv32)
    ensures (Byte(p, 0) << 0) | (Byte(p, 8) << 8) | (Byte(p, 16) << 16) | (Byte(p, 24) << 24) == p
  {
  }

  /** The same in ARGB32 order. */
  lemma ReassembleArgb(p: bv32)
    ensures (Byte(p, 16) << 16) | (Byte(p, 8) << 8) | (Byte(p, 0) << 0) | (Byte(p, 24) << 24) == p
  {
  }

  /** The same with alpha low. */
  lemma ReassembleLow(p: bv32)
    ensures (Byte(p, 24) << 24) | (Byte(p, 16) << 16) | (Byte(p, 8) << 8) | (Byte(p, 0) << 0) == p
  {
  }

  /** In the little-endian layout as written, the opaque ARGB32 pixel 0xFF102030 has its
      blue byte 0x30 taken for alpha, and its alpha byte 0xFF taken for red. The quotient of
      red, 255 / (48 / 255) = 1354.6875 truncated to 1354 = 0x54A, is shifted into the high
      byte unmasked, so the pixel comes out with alpha 0x4A instead of staying opaque. */
  lemma LittleEndianOpaqueCorrupted(quot: Quotient)
    requires FitsWhenPremultiplied(quot) && quot(0xFF, 0x30) == 1354
    ensures DemulPixel(0xFF10_2030, ShiftsAsWritten(true), quot) >> 24 == 0x4A
  {
    var s := ShiftsAsWritten(true);
    var p: bv32 := 0xFF10_2030;
    assert Byte(p, s.r) == 0xFF && Byte(p, s.g) == 0x10 && Byte(p, s.b) == 0x20 && Byte(p, s.a) == 0x30;
    assert quot(0x10, 0x30) <= 255 && quot(0x20, 0x30) <= 255;
    LowLayoutHighByte(quot(0xFF, 0x30), quot(0x10, 0x30), quot(0x20, 0x30));
  }

  lemma LowLayoutHighByte(qr: bv32, qg: bv32, qb: bv32)
    requires qr == 1354 && qg <= 255 && qb <= 255
    ensures ((qr << 24) | (qg << 16) | (qb << 8) | (0x30 << 0)) >> 24 == 0x4A
  {
  }

  /** With the corrected shifts an opaque pixel is unchanged on every machine. */
  lemma CorrectedOpaqueUnchanged(p: bv32, quot: Quotient)
    requires ExactWhenOpaque(quot) && p >> 24 == 0xFF
    ensures DemulPixel(p, ChannelShifts(), quot) == p
  {
    OpaqueUnchanged(p, ChannelShifts(), quot);
  }

  /** A channel larger than alpha is not premultiplied; its quotient overflows the byte and
      spills unmasked, here from red into alpha. With alpha 1, `arel` is 1 / 255f =
      0.0039215689 in single precision, and red 255 divided by it is 65024.996, truncated to
      65024 = 0xFE00. The ARGB32 pixel 0x01FF0000 then comes out as 0xFF000000: its alpha
      jumps from 1 to 0xFF and its red becomes 0. */
  lemma SpillExample(quot: Quotient)
    requires ZeroStaysZero(quot) && quot(0xFF, 1) == 65024
    ensures DemulPixel(0x01FF_0000, ChannelShifts(), quot) == 0xFF00_0000
  {
    var s := ChannelShifts();
    var p: bv32 := 0x01FF_0000;
    assert Byte(p, s.r) == 0xFF && Byte(p, s.g) == 0 && Byte(p, s.b) == 0 && Byte(p, s.a) == 1;
    assert quot(0, 1) == 0;
  }

  /** Every pixel (px, py) before (x, y) in column-major order has been demultiplied, every
      other still holds the input. */
  ghost predicate DoneBefore(D: seq<bv32>, D0: seq<bv32>, w: int, h: int, x: int, y: int, s: Shifts, quot: Quotient)
    requires |D| == w * h && |D0| == w * h && Layout(s)
  {
    forall px, py :: 0 <= px < w && 0 <= py < h ==>
      D[Idx(w, h, px, py)] ==
        if px < x || (px == x && py < y) then DemulPixel(D0[Idx(w, h, px, py)], s, quot) else D0[Idx(w, h, px, py)]
  }

  /** Writing pixel (x, y) extends the done part by one. */
  lemma {:induction false} DoneStep(D: seq<bv32>, D0: seq<bv32>, w: int, h: int, x: int, y: int, s: Shifts, quot: Quotient)
    requires |D| == w * h && |D0| == w * h && Layout(s) && 0 <= x < w && 0 <= y < h
    requires DoneBefore(D, D0, w, h, x, y, s, quot)
    ensures D[Idx(w, h, x, y)] == D0[Idx(w, h, x, y)]
    ensures DoneBefore(D[Idx(w, h, x, y) := DemulPixel(D[Idx(w, h, x, y)], s, quot)], D0, w, h, x, y + 1, s, quot)
  {
    var j := Idx(w, h, x, y);
    var E := D[j := DemulPixel(D[j], s, quot)];
    forall px, py | 0 <= px < w && 0 <= py < h
      ensures E[Idx(w, h, px, py)] ==
        if px < x || (px == x && py < y + 1) then DemulPixel(D0[Idx(w, h, px, py)], s, quot) else D0[Idx(w, h, px, py)]
    {
      if px != x || py != y {
        if Idx(w, h, px, py) == j {
          IdxInjective(w, h, px, py, x, y);
        }
      }
    }
  }

  /** Once every column is done, every pixel of the buffer is demultiplied. */
  lemma {:induction false} DoneAll(D: seq<bv32>, D0: seq<bv32>, w: int, h: int, s: Shifts, quot: Quotient)
    requires 0 <= w && 0 <= h && |D| == w * h && |D0| == w * h && Layout(s)
    requires DoneBefore(D, D0, w, h, w, 0, s, quot)
    ensures forall j :: 0 <= j < w * h ==> D[j] == DemulPixel(D0[j], s, quot)
  {
    forall j | 0 <= j < w * h
      ensures D[j] == DemulPixel(D0[j], s, quot)
    {
      Cell(w, h, j);
    }
  }

  /** `DemulAlpha`: walks the columns x and, in each, the rows y, rewriting pixel
      `y * width + x` once. Afterwards every pixel is its demultiplied input and nothing else
      of the surface has changed; the surface is not marked dirty. */
  method DemulAlpha(surface: ImageSurface, s: Shifts, quot: Quotient)
    requires surface.Valid() && Layout(s)
    modifies surface.data
    ensures forall j :: 0 <= j < surface.data.Length ==> surface.data[j] == DemulPixel(old(surface.data[j]), s, quot)
  {
    var width, height := surface.width, surface.height;
    var pixels := surface.data;
    ghost var D0 := pixels[..];
    var x := 0;
    while x < width
      invariant 0 <= x <= width && pixels.Length == width * height
      invariant DoneBefore(pixels[..], D0, width, height, x, 0, s, quot)
    {
      var y := 0;
      while y < height
        invariant 0 <= y <= height
        invariant DoneBefore(pixels[..], D0, width, height, x, y, s, quot)
      {
        var index := y * width + x;
        assert index == Idx(width, height, x, y);
        DoneStep(pixels[..], D0, width, height, x, y, s, quot);
        pixels[index] := DemulPixel(pixels[index], s, quot);
        y := y + 1;
      }
      assert DoneBefore(pixels[..], D0, width, height, x + 1, 0, s, quot);
      x := x + 1;
    }
    DoneAll(pixels[..], D0, width, height, s, quot);
  }

  /** `DemulAlpha` with the corrected shifts: the same walk, with alpha read from the high byte
      on every machine. Opaque pixels then come through unchanged, and premultiplied ones keep
      their alpha. */
  method DemulAlphaCorrected(surface: ImageSurface, quot: Quotient)
    requires surface.Valid()
    modifies surface.data
    ensures forall j :: 0 <= j < surface.data.Length ==>
              surface.data[j] == DemulPixel(old(surface.data[j]), ChannelShifts(), quot)
    ensures ExactWhenOpaque(quot) ==>
              forall j :: 0 <= j < surface.data.Length && old(surface.data[j]) >> 24 == 0xFF ==>
                surface.data[j] == old(surface.data[j])
    ensures FitsWhenPremultiplied(quot) ==>
              forall j :: 0 <= j < surface.data.Length && Premultiplied(old(surface.data[j])) ==>
                surface.data[j] >> 24 == old(surface.data[j]) >> 24
  {
    DemulAlpha(surface, ChannelShifts(), quot);
    if ExactWhenOpaque(quot) {
      forall j | 0 <= j < surface.data.Length && old(surface.data[j]) >> 24 == 0xFF
        ensures surface.data[j] == old(surface.data[j])
      {
        CorrectedOpaqueUnchanged(old(surface.data[j]), quot);
      }
    }
    if FitsWhenPremultiplied(quot) {
      forall j | 0 <= j < surface.data.Length && Premultiplied(old(surface.data[j]))
        ensures surface.data[j] >> 24 == old(surface.data[j]) >> 24
      {
        CorrectedKeepsAlpha(old(surface.data[j]), quot);
      }
    }
  }

  /** An ARGB32 pixel with non-zero alpha and no colour channel above it. */
  predicate Premultiplied(p: bv32) {
    var a := Byte(p, 24);
    0 < a && Byte(p, 16) <= a && Byte(p, 8) <= a && Byte(p, 0) <= a
  }

  /** With the corrected shifts a premultiplied pixel keeps its alpha byte. */
  lemma CorrectedKeepsAlpha(p: bv32, quot: Quotient)
    requires FitsWhenPremultiplied(quot) && Premultiplied(p)
    ensures DemulPixel(p, ChannelShifts(), quot) >> 24 == p >> 24
  {
    var s := ChannelShifts();
    PremultipliedKeepsAlpha(p, s, quot);
    HighByte(DemulPixel(p, s, quot));
    HighByte(p);
  }

  lemma HighByte(p: bv32)
    ensures Byte(p, 24) == p >> 24
  {
  }
}
