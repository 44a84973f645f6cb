/** The noise generators: a field of random draws, shaped over a fixed number
    of rounds of blur arithmetic and rank normalisation, then converted to
    grayscale. */
module Noise {
  import opened Fields
  import opened Histogram
  import opened Gray

  /** Every shaping generator runs this many rounds. */
  const Rounds: nat := 5

  /** The four spectral shapings with their blur radii. */
  datatype Shaping =
    | Red(sigma: real)
    | Blue(sigma: real)
    | Green(lowSigma: real, highSigma: real)
    | Purple(lowSigma: real, highSigma: real)

  /** The field a round hands to the normaliser, computed from the field `f`
      that entered the round:
        red:    blur(f)
        blue:   f - blur(f)
        green:  blur(f, low) - blur(f, high)
        purple: f - (blur(f, low) - blur(f, high)) */
  function RoundInput(blur: Blur, shaping: Shaping, f: seq<real>): (g: seq<real>)
    ensures |g| == |f|
  {
    match shaping
    case Red(sigma) => blur(f, sigma)
    case Blue(sigma) => Sub(f, blur(f, sigma))
    case Green(low, high) => Sub(blur(f, low), blur(f, high))
    case Purple(low, high) => Sub(f, Sub(blur(f, low), blur(f, high)))
  }

  /** `after` is a possible field at the end of a round entered with `before`. */
  ghost predicate IsRound(blur: Blur, shaping: Shaping, before: seq<real>, after: seq<real>)
  {
    IsNormalizationOf(RoundInput(blur, shaping, before), after)
  }

  /** `trace` lists the field before the first round and after every round. */
  ghost predicate IsRun(blur: Blur, shaping: Shaping, trace: seq<seq<real>>)
  {
    forall k :: 0 <= k < |trace| - 1 ==> IsRound(blur, shaping, trace[k], trace[k + 1])
  }

  /** Unpacks a round: gives the ranking that `IsRound` asserts exists, from
      which the one derived fact follows, that a round keeps the number of
      pixels. */
  lemma RoundIsNormalized(blur: Blur, shaping: Shaping, before: seq<real>, after: seq<real>)
    returns (r: seq<nat>)
    requires IsRound(blur, shaping, before, after)
    ensures |after| == |before|
    ensures IsRanking(RoundInput(blur, shaping, before), r) && after == Levels(r)
  {
    r :| IsRanking(RoundInput(blur, shaping, before), r) && after == Levels(r);
  }

  /** No round changes the number of pixels. */
  lemma {:induction false} RunKeepsSize(blur: Blur, shaping: Shaping, trace: seq<seq<real>>, k: nat)
    requires IsRun(blur, shaping, trace)
    requires k < |trace|
    ensures |trace[k]| == |trace[0]|
  {
    if k > 0 {
      RunKeepsSize(blur, shaping, trace, k - 1);
      var r := RoundIsNormalized(blur, shaping, trace[k - 1], trace[k]);
    }
  }

  /** After at least one round of a full-size image, the field holds each
      of the levels 0/N, ..., (N-1)/N at exactly one pixel. */
  lemma RunEndsUniform(blur: Blur, shaping: Shaping, trace: seq<seq<real>>)
    requires IsRun(blur, shaping, trace)
    requires |trace| >= 2 && |trace[0]| == PixelCount
    ensures IsUniform(trace[|trace| - 1])
  {
    var last := |trace| - 1;
    RunKeepsSize(blur, shaping, trace, last - 1);
    var r := RoundIsNormalized(blur, shaping, trace[last - 1], trace[last]);
    NormalizedIsUniform(RoundInput(blur, shaping, trace[last - 1]), r);
  }

  /** `white_noise_float`: a full-size field whose pixels, in raster order,
      take the successive random draws. */
  method WhiteNoiseFloat(draws: seq<real>) returns (img: array<real>)
    requires |draws| == PixelCount
    ensures fresh(img)
    ensures img[..] == draws
  {
    img := new real[PixelCount];
    for i := 0 to PixelCount
      invariant forall j :: 0 <= j < i ==> img[j] == draws[j]
    {
      img[i] := draws[i];
    }
  }

  /** `white_noise`: the random draws converted to gray without shaping. */
  method WhiteNoise(draws: seq<real>) returns (gray: array<byte>)
    requires |draws| == PixelCount
    ensures gray.Length == PixelCount
    ensures forall i :: 0 <= i < PixelCount ==> gray[i] == Quantize(draws[i])
  {
    var noise := WhiteNoiseFloat(draws);
    gray := ConvertToGrayImage(noise);
  }

  /** One round of `red_noise`: the field is replaced by its blurred copy,
      which is then normalised. */
  method RedRound(blur: Blur, noise: array<real>, sigma: real) returns (next: array<real>)
    ensures fresh(next)
    ensures IsRound(blur, Red(sigma), noise[..], next[..])
  {
    next := BlurField(blur, noise, sigma);
    ghost var input := next[..];
    ghost var r := NormalizeHistogram(next);
  }

  /** One round of `blue_noise`: the blurred copy is subtracted from the field
      in place, and the field is normalised. */
  method BlueRound(blur: Blur, noise: array<real>, sigma: real)
    modifies noise
    ensures IsRound(blur, Blue(sigma), old(noise[..]), noise[..])
  {
    var blurred := BlurField(blur, noise, sigma);
    SubtractInPlace(noise, blurred);
    ghost var input := noise[..];
    ghost var r := NormalizeHistogram(noise);
  }

  /** One round of `green_noise`: the wide blur is subtracted from the narrow
      blur in place, the difference is normalised and replaces the field. */
  method GreenRound(blur: Blur, noise: array<real>, lowSigma: real, highSigma: real)
    returns (next: array<real>)
    ensures fresh(next)
    ensures IsRound(blur, Green(lowSigma, highSigma), noise[..], next[..])
  {
    var lowBlurred := BlurField(blur, noise, lowSigma);
    var highBlurred := BlurField(blur, noise, highSigma);
    SubtractInPlace(lowBlurred, highBlurred);
    ghost var input := lowBlurred[..];
    ghost var r := NormalizeHistogram(lowBlurred);
    next := lowBlurred;
  }

  /** One round of `purple_noise`: the band (narrow blur minus wide blur, both
      of the field as it entered the round) is subtracted from the field in
      place, and the field is normalised. */
  method PurpleRound(blur: Blur, noise: array<real>, lowSigma: real, highSigma: real)
    modifies noise
    ensures IsRound(blur, Purple(lowSigma, highSigma), old(noise[..]), noise[..])
  {
    var lowBlurred := BlurField(blur, noise, lowSigma);
    var highBlurred := BlurField(blur, noise, highSigma);
    SubtractInPlace(lowBlurred, highBlurred);
    SubtractInPlace(noise, lowBlurred);
    ghost var input := noise[..];
    ghost var r := NormalizeHistogram(noise);
  }

  /** `red_noise`: five red rounds over the random field, then gray. `trace`
      is the field before the first round and after each round. */
  method RedNoise(blur: Blur, draws: seq<real>, sigma: real)
    returns (gray: array<byte>, ghost trace: seq<seq<real>>)
    requires |draws| == PixelCount
    ensures |trace| == Rounds + 1 && trace[0] == draws
    ensures IsRun(blur, Red(sigma), trace)
    ensures IsUniform(trace[Rounds]) && gray.Length == PixelCount
    ensures forall i :: 0 <= i < gray.Length ==> gray[i] == Quantize(trace[Rounds][i])
  {
    var noise := WhiteNoiseFloat(draws);
    trace := [noise[..]];
    for round := 0 to Rounds
      invariant |trace| == round + 1 && trace[0] == draws
      invariant IsRun(blur, Red(sigma), trace)
      invariant noise[..] == trace[round]
    {
      noise := RedRound(blur, noise, sigma);
      trace := trace + [noise[..]];
    }
    RunEndsUniform(blur, Red(sigma), trace);
    gray := ConvertToGrayImage(noise);
  }

  /** `blue_noise`: five blue rounds over the random field, then gray. */
  method BlueNoise(blur: Blur, draws: seq<real>, sigma: real)
    returns (gray: array<byte>, ghost trace: seq<seq<real>>)
    requires |draws| == PixelCount
    ensures |trace| == Rounds + 1 && trace[0] == draws
    ensures IsRun(blur, Blue(sigma), trace)
    ensures IsUniform(trace[Rounds]) && gray.Length == PixelCount
    ensures forall i :: 0 <= i < gray.Length ==> gray[i] == Quantize(trace[Rounds][i])
  {
    var noise := WhiteNoiseFloat(draws);
    trace := [noise[..]];
    for round := 0 to Rounds
      invariant fresh(noise)
      invariant |trace| == round + 1 && trace[0] == draws
      invariant IsRun(blur, Blue(sigma), trace)
      invariant noise[..] == trace[round]
    {
      BlueRound(blur, noise, sigma);
      trace := trace + [noise[..]];
    }
    RunEndsUniform(blur, Blue(sigma), trace);
    gray := ConvertToGrayImage(noise);
  }

  /** `green_noise`: five green rounds over the random field, then gray. */
  method GreenNoise(blur: Blur, draws: seq<real>, lowSigma: real, highSigma: real)
    returns (gray: array<byte>, ghost trace: seq<seq<real>>)
    requires |draws| == PixelCount
    ensures |trace| == Rounds + 1 && trace[0] == draws
    ensures IsRun(blur, Green(lowSigma, highSigma), trace)
    ensures IsUniform(trace[Rounds]) && gray.Length == PixelCount
    ensures forall i :: 0 <= i < gray.Length ==> gray[i] == Quantize(trace[Rounds][i])
  {
    var noise := WhiteNoiseFloat(draws);
    trace := [noise[..]];
    for round := 0 to Rounds
      invariant |trace| == round + 1 && trace[0] == draws
      invariant IsRun(blur, Green(lowSigma, highSigma), trace)
      invariant noise[..] == trace[round]
    {
      noise := GreenRound(blur, noise, lowSigma, highSigma);
      trace := trace + [noise[..]];
    }
    RunEndsUniform(blur, Green(lowSigma, highSigma), trace);
    gray := ConvertToGrayImage(noise);
  }

  /** `purple_noise`: five purple rounds over the random field, then gray. */
  method PurpleNoise(blur: Blur, draws: seq<real>, lowSigma: real, highSigma: real)
    returns (gray: array<byte>, ghost trace: seq<seq<real>>)
    requires |draws| == PixelCount
    ensures |trace| == Rounds + 1 && trace[0] == draws
    ensures IsRun(blur, Purple(lowSigma, highSigma), trace)
    ensures IsUniform(trace[Rounds]) && gray.Length == PixelCount
    ensures forall i :: 0 <= i < gray.Length ==> gray[i] == Quantize(trace[Rounds][i])
  {
    var noise := WhiteNoiseFloat(draws);
    trace := [noise[..]];
    for round := 0 to Rounds
      invariant fresh(noise)
      invariant |trace| == round + 1 && trace[0] == draws
      invariant IsRun(blur, Purple(lowSigma, highSigma), trace)
      invariant noise[..] == trace[round]
    {
      PurpleRound(blur, noise, lowSigma, highSigma);
      trace := trace + [noise[..]];
    }
    RunEndsUniform(blur, Purple(lowSigma, highSigma), trace);
    gray := ConvertToGrayImage(noise);
  }
}
