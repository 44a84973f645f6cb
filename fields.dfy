/** Float fields: the single-channel 256x256 images the generator works on,
    stored row-major (pixel (x, y) at index y * NoiseSize + x). */
module Fields {

  /** Side length of every generated image. */
  const NoiseSize: nat := 256

  /** Number of pixels of every generated image; also the divisor of the
      normalised levels. */
  const PixelCount: nat := NoiseSize * NoiseSize

  /** The external Gaussian blur: given a field and a sigma it returns a field
      of the same number of pixels. Nothing else is assumed about it. */
  type Blur = f: (seq<real>, real) -> seq<real> | forall g, sigma :: |f(g, sigma)| == |g|
    witness (g: seq<real>, sigma: real) => g

  /** Pixel-wise difference of two fields of the same size. */
  function Sub(a: seq<real>, b: seq<real>): (d: seq<real>)
    requires |a| == |b|
    ensures |d| == |a|
    ensures forall i :: 0 <= i < |d| ==> d[i] + b[i] == a[i]
  {
    seq(|a|, i requires 0 <= i < |a| => a[i] - b[i])
  }

  /** Runs the external blur on an image and stores its result in a new
      buffer, as the image library does. */
  method BlurField(blur: Blur, img: array<real>, sigma: real) returns (blurred: array<real>)
    ensures fresh(blurred)
    ensures blurred[..] == blur(img[..], sigma)
  {
    var s := blur(img[..], sigma);
    blurred := new real[|s|](i requires 0 <= i < |s| => s[i]);
  }

  /** Subtracts `source` from `target` pixel by pixel, in place: every pixel of
      `target` is written once, with the source pixel of the same index. */
  method SubtractInPlace(target: array<real>, source: array<real>)
    requires target.Length == source.Length
    requires target != source
    modifies target
    ensures target[..] == Sub(old(target[..]), source[..])
  {
    for i := 0 to target.Length
      invariant forall j :: 0 <= j < i ==> target[j] == old(target[j]) - source[j]
      invariant forall j :: i <= j < target.Length ==> target[j] == old(target[j])
    {
      target[i] := target[i] - source[i];
    }
  }
}
