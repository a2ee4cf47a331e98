/** The packed pixel as the box blur reads and writes it (util/SurfaceTransformBlur.cs):
    red in bits 0-7, green in bits 8-15, blue in bits 16-23, alpha in bits 24-31. */
module BlurPixel {
  import opened BlurGrid

  /** The three colour channels the blur averages; alpha is carried, never averaged. */
  datatype Channel = Red | Green | Blue

  function Shift(c: Channel): bv32 {
    match c
    case Red => 0
    case Green => 8
    case Blue => 16
  }

  /** `(p >> shift) & 0xff`, the byte of colour channel c. */
  function ChannelByte(p: bv32, c: Channel): bv8 {
    ((p >> Shift(c)) & 0xFF) as bv8
  }

  /** The same byte as an integer, the unit the running sums add up. */
  function Ch(p: bv32, c: Channel): (v: int)
    ensures 0 <= v < 256
  {
    ChannelByte(p, c) as int
  }

  /** `(p >> 24) & 0xff`, the alpha byte. */
  function AlphaOf(p: bv32): bv8 {
    ((p >> 24) & 0xFF) as bv8
  }

  /** `((byte)a << 24) | ((byte)b << 16) | ((byte)g << 8) | (byte)r`: the way every pass writes
      a pixel back. Unpacking returns exactly the four bytes that were packed. */
  function Pack(a: bv8, b: bv8, g: bv8, r: bv8): (p: bv32)
    ensures AlphaOf(p) == a
    ensures ChannelByte(p, Blue) == b && ChannelByte(p, Green) == g && ChannelByte(p, Red) == r
  {
    (a as bv32 << 24) | (b as bv32 << 16) | (g as bv32 << 8) | r as bv32
  }

  /** Packing the four bytes of a pixel gives the pixel back: the layout uses every bit. */
  lemma Repack(p: bv32)
    ensures Pack(AlphaOf(p), ChannelByte(p, Blue), ChannelByte(p, Green), ChannelByte(p, Red)) == p
  {
  }

  /** `(byte)(sum * iar)` with `iar = 1.0 / (2r + 1)` computed in IEEE doubles: the averaging step
      of a pass of radius r, applied to a running sum. It is a parameter of the model because
      double rounding is not modelled; every property below that needs it says what it assumes. */
  type Average = (nat, int) -> bv8

  /** A byte as an integer. */
  function Val(v: bv8): int {
    v as int
  }

  /** With r = 0, `iar` is exactly 1.0 and `(byte)(v * 1.0)` is v for every byte v. This holds
      in IEEE arithmetic, so it is a fair assumption about the real averaging step. */
  ghost predicate ExactAtRadiusZero(avg: Average) {
    forall v: bv8 :: avg(0, Val(v)) == v
  }

  /** The sum of 2r + 1 copies of a byte averages back to that byte. True of exact division;
      in doubles it fails for some radii (49 * (1.0 / 49) is below 1), so the fixed-point
      lemmas that use it are about an idealised averaging step. */
  ghost predicate ExactOnMultiples(avg: Average) {
    forall r: nat, v: bv8 :: avg(r, Copies(r, v)) == v
  }

  /** The running sum of a window of 2r + 1 equal samples v. */
  function Copies(r: nat, v: bv8): int {
    (2 * r + 1) * Val(v)
  }

  /** Exact division with truncation, saturated to a byte: the averaging step without rounding error. */
  function IdealAverage(r: nat, sum: int): bv8 {
    var q := sum / (2 * r + 1);
    if q < 0 then 0 else if q > 255 then 255 else q as bv8
  }

  /** The idealised step meets both assumptions. */
  lemma IdealAverageIsExact()
    ensures ExactAtRadiusZero(IdealAverage)
    ensures ExactOnMultiples(IdealAverage)
  {
    forall v: bv8 ensures IdealAverage(0, Val(v)) == v {
      assert Val(v) / 1 == Val(v);
    }
    forall r: nat, v: bv8 ensures IdealAverage(r, Copies(r, v)) == v {
      var d := 2 * r + 1;
      assert Copies(r, v) == Val(v) * d;
      MulDivCancel(Val(v), d);
    }
  }

  lemma MulDivCancel(a: int, d: int)
    requires d > 0
    ensures (a * d) / d == a
  {
    var k := a - (a * d) / d;
    assert d * k == (a * d) % d;
    MulLtCancel(d, k, 1);
    MulLtCancel(d, -1, k);
  }
}
