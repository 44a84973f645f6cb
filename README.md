# Noise textures: a verified model of the generator core

The library produces 256×256 grayscale noise images: white, red, blue, green
and purple noise. Every image starts as a field of uniform random draws in
[0, 1). The four coloured noises then run five shaping rounds. A round
combines the field with Gaussian-blurred copies of itself and then
rank-normalises it (`normalize_histogram`). The brightest pixel gets 0, the
next brightest 1/N, and so on, with N = 65536. The final float field is
converted to 8-bit gray as `round(v * 255) as u8`.

The model is in four modules:

- `Fields` (fields.dfy): image constants and the injected blur. It holds the
  `Blur` function type, whose one promise is that the output has as many pixels
  as the input. It also holds the in-place pixel-wise subtraction loop.
- `Histogram` (histogram.dfy): rank normalisation. `IsRanking(v, r)` is the
  specification. `r` gives each pixel its own rank in 0..N-1, and a strictly
  brighter pixel always gets a strictly smaller rank. Ties may go either way,
  matching the unstable sort. `NormalizeHistogram` works as the source does. It
  collects the pixel indices, sorts them by descending value and writes
  `index / PixelCount` into each pixel in sorted order. Its ensures clause ties
  the new buffer to a ranking of the old one. Lemmas prove uniformity, order
  reversal, the range [0, 1), where the extremes land, and uniqueness when no
  two values tie.
- `Gray` (gray.dfy): `f32::round` (ties away from zero), the saturating
  float-to-`u8` cast, and `convert_to_gray_image` as a loop into a new buffer.
- `Noise` (noise.dfy): the white-noise field, one method per round
  (`RedRound`, `BlueRound`, `GreenRound`, `PurpleRound`) and the five-round
  generators. `RoundInput` says which field each strategy normalises. `IsRound`
  and `IsRun` describe a round and a whole run as a relation. Each generator
  returns a ghost trace of the field before round 1 and after every round.

Fields are `array<real>` of length `NoiseSize * NoiseSize` in row-major order,
with pixel (x, y) at index `y * 256 + x`. Gray images are `array<byte>` of the
same length. The random draws and the blur are parameters. Nothing in the model
performs I/O or draws randomness.

Facts about the code that shape the model:

- The number of rounds is the constant 5 (src/lib.rs:35, 46, 63, 83), and the
  image size is the constant 256×256 (src/lib.rs:4). Neither is a parameter.
- Neither the sigmas nor anything else is validated.
- Normalisation gives the greatest input level 0: the sort is descending
  (src/lib.rs:111), and sorted position `index` receives `index / PIXEL_COUNT`
  (src/lib.rs:114).
- Normalisation divides by the constant `PIXEL_COUNT` (src/lib.rs:106), not by
  the buffer's length. The uniformity lemmas therefore require a full-size
  field.

Two facts about the arithmetic are worth knowing. `PIXEL_COUNT` is 2^16, so
`index as f32 / PIXEL_COUNT as f32` is exact in `f32`. The product of a level
with 255 is exact as well, because `index * 255` is below 2^24. The real-valued
`Level` and `QuantizeLevel` therefore agree with the `f32` computation bit for
bit. This does not hold for the blur, the subtractions, or the quantisation of a raw
draw.

## Model

| member | source | states |
|---|---|---|
| `Fields.SubtractInPlace` | src/lib.rs:49-52 | After the loop, each pixel of the target equals its old value minus the source pixel at the same index. Only the target is written, and every index is written once. The same loop is at lines 67-70, 87-90 and 94-97. |
| `Fields.Sub` | src/lib.rs:51 | The pixel-wise difference of two same-size fields: same length, and each pixel plus the subtrahend's pixel gives back the minuend's pixel. The same `-` is at lines 69, 89 and 96. |
| `Fields.BlurField` | src/lib.rs:36 | The blurred copy is a new buffer holding the injected blur of the field. |
| `Histogram.Level` | src/lib.rs:114 | The level of a rank from 0 to N-1 lies in [0, 1). |
| `Histogram.LevelIsMonotone` | src/lib.rs:114 | Levels are ordered exactly as their ranks. |
| `Histogram.PermutationCovers` | src/lib.rs:110 | N distinct pixel indices below N include every pixel. So the sorted list reaches every pixel, and the write loop writes every one. |
| `Histogram.RankIsTaken` | src/lib.rs:113-116 | In a ranking, every rank from 0 to N-1 is held by some pixel. |
| `Histogram.NormalizedIsUniform` | src/lib.rs:108-116 | A normalised full-size field holds each of 0/N, ..., (N-1)/N at exactly one pixel and holds no other value. |
| `Histogram.NormalizationReversesOrder` | src/lib.rs:111-115 | If input `a > b`, then level `a' < b'`. Conversely, a smaller level never belongs to a smaller input. |
| `Histogram.GreatestGetsZero` | src/lib.rs:111-115 | The strictly greatest pixel receives rank 0 and level 0. |
| `Histogram.SmallestGetsTop` | src/lib.rs:111-115 | The strictly smallest pixel receives the last rank, N-1. |
| `Histogram.NormalizedInUnitInterval` | src/lib.rs:113-114 | Every normalised value of a field of at most N pixels lies in [0, 1). |
| `Histogram.RankingsAgreeBelow` | src/lib.rs:111 | With no ties, two rankings agree on every pixel whose first rank is below k (induction on k). |
| `Histogram.RankingOfDistinctValuesIsUnique` | src/lib.rs:111 | With no ties there is exactly one ranking, so the sort's freedom shows only on ties. |
| `Histogram.NormalizationOfDistinctValuesIsDeterministic` | src/lib.rs:111-116 | With no ties, normalisation has exactly one possible result. |
| `Histogram.SortedOrderGivesRanking` | src/lib.rs:111-116 | Writing rank k into the pixel at position k of a descending order yields a ranking of the input, and the buffer becomes the levels of that ranking. |
| `Histogram.CollectPixels` | src/lib.rs:108-110 | The collected pixel list is 0..N-1 in raster order. |
| `Histogram.SortDescending` | src/lib.rs:111 | The sort by the descending comparator leaves a permutation of the pixels in non-increasing order of value. |
| `Histogram.WriteLevels` | src/lib.rs:113-116 | The pixel at sorted position `index` receives `index / PIXEL_COUNT`, and the recorded rank of that pixel is `index`. |
| `Histogram.NormalizeHistogram` | src/lib.rs:105-117 | The new buffer is the levels of some ranking of the old buffer. Only pixel values change, and the length stays the same. |
| `Gray.RoundHalfAwayFromZero` | src/lib.rs:13 | The result is within 1/2 of the input, and an exact half rounds away from zero. |
| `Gray.SaturateToByte` | src/lib.rs:13 | The saturating `as u8` cast: values in 0..255 are kept, negative values give 0 and values above 255 give 255. |
| `Gray.Quantize` | src/lib.rs:13 | For v in [0, 1], the byte is within 1/2 of 255·v. Values at or below 0 give 0, and values at or above 1 give 255 (saturation). |
| `Gray.QuantizeInRangeIsRounding` | src/lib.rs:13 | For v in [0, 1], the cast never saturates, so the byte is `round(255·v)` itself. |
| `Gray.QuantizeIsMonotone` | src/lib.rs:13 | A larger float never gives a smaller gray value. |
| `Gray.QuantizeLevel` | src/lib.rs:13 | The gray value of level k/N is (510k + N) div 2N, in integer arithmetic. |
| `Gray.ConvertToGrayImage` | src/lib.rs:10-16 | The output has as many pixels as the input, and each pixel is the quantised value at the same position. |
| `Noise.RoundInput` | src/lib.rs:36-97 | The field each strategy hands to the normaliser, computed from the field entering the round: red `blur(f)` (line 36), blue `f - blur(f)` (47-52), green `blur(f, low) - blur(f, high)` (64-70), purple `f - (blur(f, low) - blur(f, high))` (84-97). Its contract states only that the pixel count is kept; every round method's contract is stated against it. |
| `Noise.RoundIsNormalized` | src/lib.rs:37 | Extracts the ranking that a round's normalisation (lines 37, 54, 72 and 99) asserts exists; the fact it derives is that a round keeps the pixel count. |
| `Noise.RunKeepsSize` | src/lib.rs:35-38 | No round of a run changes the number of pixels. |
| `Noise.RunEndsUniform` | src/lib.rs:35-38 | After at least one round on a full-size field, the field is uniform: each level is held by exactly one pixel. |
| `Noise.WhiteNoiseFloat` | src/lib.rs:18-26 | A new full-size field whose pixels, in raster order, take the successive draws. |
| `Noise.WhiteNoise` | src/lib.rs:28-30 | A full-size gray image whose pixel i is the quantised draw i. |
| `Noise.RedRound` | src/lib.rs:36-37 | The field is replaced by a new buffer holding a normalisation of `blur(field, sigma)`. |
| `Noise.BlueRound` | src/lib.rs:47-54 | In place, the field becomes a normalisation of `field - blur(field, sigma)`, taken from the field as it entered the round. |
| `Noise.GreenRound` | src/lib.rs:64-74 | The field is fully replaced by a new buffer holding a normalisation of `blur(field, low) - blur(field, high)`. |
| `Noise.PurpleRound` | src/lib.rs:84-99 | In place, the field becomes a normalisation of `field - (blur(field, low) - blur(field, high))`. Both blurs are of the field as it entered the round. |
| `Noise.RedNoise` | src/lib.rs:32-41 | Five red rounds starting from the draws. The final field is uniform. The output is full-size, and each pixel is the quantised final field. |
| `Noise.BlueNoise` | src/lib.rs:43-58 | The same as `RedNoise`, with five blue rounds. |
| `Noise.GreenNoise` | src/lib.rs:60-78 | The same as `RedNoise`, with five green rounds. |
| `Noise.PurpleNoise` | src/lib.rs:80-103 | The same as `RedNoise`, with five purple rounds. |

## Left out

- `rand::random()` (src/lib.rs:22): randomness is not modelled. The draws are a parameter, one per pixel in raster order.
- `image::imageops::blur`: the Gaussian convolution is an external library call. It is a parameter of type `Blur`, and the model assumes only that it keeps the pixel count. Nothing about smoothing or frequency content is stated.
- `f32` arithmetic: the subtractions and the blur are modelled over exact reals, so their rounding error is not captured. NaN does not exist in the model. The comparator's `unwrap_or(Equal)` for NaN is therefore left out. It is not a total order, and the sort properties would not hold with it.
- `Gray.Quantize`: the product `v * 255.0` (src/lib.rs:13) is taken over the reals, while `f32` rounds it before `.round()`. For a level of a shaped field the product is exact, but for an arbitrary raw draw (`Noise.WhiteNoise`, src/lib.rs:28-30) the program's gray value can differ from the model's by one next to a .5 boundary: for the draw 8454401·2⁻²⁴ the exact product is just below 128.5, so the model gives 128, whereas the `f32` product rounds to 128.5 and the program gives 129.
- `sort_unstable_by`: the library's pattern-defeating quicksort is replaced by a selection sort that meets the same contract, a descending permutation. The order of tied pixels differs between the two. The contract leaves that order open, and so do all lemmas.
- `Histogram.NormalizeHistogram`: the contract leaves the order among tied pixels open. It does not pin down the library sort's particular choice.
- The `ImageBuffer`/`Luma` containers: images are flat arrays with the fixed 256×256 dimensions. Width and height are not stored separately.
- The ranges of the gray outputs of the coloured generators follow from the `byte` type and `QuantizeLevel`. No separate statement is made about them.
