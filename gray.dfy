/** Conversion of a float field into the 8-bit grayscale image that is
    returned to the caller. */
module Gray {
  import opened Fields
  import opened Histogram

  /** An 8-bit grayscale pixel value. */
  type byte = x: int | 0 <= x < 256

  /** Rounding to the nearest integer, halfway cases away from zero (the
      rounding of `f32::round`). */
  function RoundHalfAwayFromZero(x: real): (r: int)
    ensures -0.5 <= r as real - x <= 0.5
    ensures r as real - x == 0.5 ==> x > 0.0
    ensures r as real - x == -0.5 ==> x < 0.0
  {
    if x >= 0.0 then (x + 0.5).Floor else -((-x + 0.5).Floor)
  }

  /** The float-to-`u8` cast, which saturates at both ends. */
  function SaturateToByte(z: int): (b: byte)
    ensures 0 <= z < 256 ==> b == z
    ensures z < 0 ==> b == 0
    ensures 255 < z ==> b == 255
  {
    if z < 0 then 0 else if z > 255 then 255 else z
  }

  /** The gray value of one pixel: `round(v * 255)` cast to `u8`. */
  function Quantize(v: real): (b: byte)
    ensures 0.0 <= v <= 1.0 ==> -0.5 <= b as real - v * 255.0 <= 0.5
    ensures v <= 0.0 ==> b == 0
    ensures 1.0 <= v ==> b == 255
  {
    SaturateToByte(RoundHalfAwayFromZero(v * 255.0))
  }

  /** For a value in [0, 1] the cast never saturates: the gray value is the
      rounded product itself. */
  lemma QuantizeInRangeIsRounding(v: real)
    requires 0.0 <= v <= 1.0
    ensures Quantize(v) == RoundHalfAwayFromZero(v * 255.0)
  {
  }

  /** A brighter value never gets a darker gray. */
  lemma QuantizeIsMonotone(a: real, b: real)
    requires a <= b
    ensures Quantize(a) <= Quantize(b)
  {
  }

  /** The floor of an exact quotient is the integer quotient. */
  lemma FloorOfQuotient(a: nat, b: nat)
    requires b > 0
    ensures (a as real / b as real).Floor == a / b
  {
    var q, m := a / b, a % b;
    assert a == q * b + m;
    assert a as real / b as real == q as real + m as real / b as real;
    assert 0.0 <= m as real / b as real < 1.0;
  }

  /** The gray value of the level of rank `k`, in integer arithmetic:
      round(255 k / N) = (510 k + N) div 2N. */
  lemma QuantizeLevel(k: nat)
    requires k < PixelCount
    ensures Quantize(Level(k)) == (510 * k + PixelCount) / (2 * PixelCount)
  {
    FloorOfQuotient(510 * k + PixelCount, 2 * PixelCount);
  }

  /** `convert_to_gray_image`: a new image of the same dimensions holding the
      gray value of every pixel at the same position. */
  method ConvertToGrayImage(img: array<real>) returns (gray: array<byte>)
    ensures gray.Length == img.Length
    ensures forall i :: 0 <= i < img.Length ==> gray[i] == Quantize(img[i])
  {
    gray := new byte[img.Length];
    for i := 0 to img.Length
      invariant forall j :: 0 <= j < i ==> gray[j] == Quantize(img[j])
    {
      gray[i] := Quantize(img[i]);
    }
  }
}
