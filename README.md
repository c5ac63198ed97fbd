# GoBrot in Dafny

A model of GoBrot's `brot.go`, an escape-time Mandelbrot renderer. It renders in two passes.

The **sampling pass** maps every pixel affinely to a point of the complex plane. It takes four sub-pixel samples around that point. Each sample runs the escape-time iterator `mandelbrot`:

- an escaped sample bumps `histogram[n]` and stores a smooth iteration value;
- a sample that never escapes stores a `+Inf` sentinel.

`total` is the sum of the histogram.

The **colouring pass** turns each finite value `s` into two histogram-equalised hues. These are cumulative fractions of `histogram[i] / total` up to `uint16(s)` and up to `uint16(s) + 1`. Each hue is looked up in a gradient table with `GetInterpolatedColorFor`. The two results are blended in HCL at the fractional part of `s`. The four sample colours of a pixel are then combined by a fixed pairwise blend tree. `interpolate`, a uint16 channel average, is modelled on its own.

Modelling choices:

- float64 arithmetic is idealised as `real` and complex128 as a pair of reals. The bailout test `|v| > 2` is `re² + im² > 4`.
- The go-colorful library is a term algebra. `BlendHcl(from, to, t)` and `Clamped(c)` are uninterpreted constructors, so every fact about a colour says which library calls produce it, with which arguments. A blend weight is a fraction or the `NaN` of `0/0`.
- The smooth estimate `n + 1 - nu` is a function parameter `smooth(n, zn)`. It is required to lie below `n + 1` for every escaped `zn` (`SmoothBelow`, true because `nu > 0` when `|zn| > 2`). It is required to be non-negative only at the points the sampling pass visits (`SmoothNonNegativeAt`).
- The constants (image size, iteration bound, viewport, palette) are parameters.

Modules:

| file | module | models |
|---|---|---|
| complex.dfy | `Cplx` | complex numbers |
| escape.dfy | `Escape` | `mandelbrot` |
| histogram.dfy | `Histogram` | the histogram, `total`, and the hue loops |
| sampling.dfy | `Sampling` | the viewport map and the sampling pass |
| colorful.dfy | `Colorful` | the colour terms |
| gradient.dfy | `Gradient` | `GradientTable.GetInterpolatedColorFor` |
| render.dfy | `Render` | the colouring pass, the compositor and `main` |
| interpolate.dfy | `Interpolation` | `interpolate` |

Each loop of the source is a Dafny method proved against a specification function:

| method | specification |
|---|---|
| `Mandelbrot` | `EscapeCount`/`Orbit` |
| `Hue` | `CumFrac` |
| `Total` | `Sum` |
| `GetInterpolatedColorFor` | `ColorAt` |
| `SamplePhase` | `ImageHist` and `PixelSamples` |
| `ColorPhase` | `PixelColor` |
| `Interpolate` | `SumDiv` |

Lemmas then prove what the source promises about those functions.

Where the code and its description differ, the model follows the code. The `supersample` constant is never read, so four samples per pixel are always taken.

## Model

| member | source | states |
|---|---|---|
| Escape.Mandelbrot | brot.go:53-61 | the returned count n is at most the bound; when n is below the bound, v is the (n+1)-th iterate and lies outside radius 2, otherwise v is the last iterate; n and v are the first-escape count and iterate |
| Escape.EscapeFromSpec | brot.go:54-58 | the escape scan from step `from` on stops at the first escaping step or at the bound, and no step before it escaped |
| Escape.EscapeCountSpec | brot.go:54-58 | the count is at most the bound; below the bound the next iterate is outside radius 2; every earlier iterate stayed inside |
| Escape.EscapeCountUnique | brot.go:54-58 | any count with these three properties is the count: the first escape is unique |
| Escape.EscapesAtOnce | brot.go:54-58 | a point with abs(z) > 2 escapes at the first step: n == 0 and v == z |
| Escape.OrbitOne | brot.go:55 | the first step from v = 0 gives v = z |
| Escape.OrbitOfZero | brot.go:55 | every iterate of the origin is 0 |
| Escape.OriginNeverEscapes | brot.go:54-58 | the origin never escapes: n equals the bound and v == 0 |
| Histogram.AccumulateAppend | brot.go:100-101 | recording two runs of samples one after the other records their concatenation |
| Histogram.HistCounts | brot.go:78-101 | histogram[k] is the number of samples whose count is exactly k |
| Histogram.SumZeros | brot.go:78 | the fresh histogram sums to 0 |
| Histogram.SumIncrement | brot.go:101 | `histogram[n]++` adds one to the sum |
| Histogram.AccumulateSum | brot.go:100-148 | recording adds to the sum exactly the number of escaped samples |
| Histogram.HistTotal | brot.go:145-148 | the sum of the histogram is the number of escaped samples |
| Histogram.HistNonNegative | brot.go:78-101 | the histogram has `iterations` entries, all non-negative |
| Histogram.CountEscapedAtMost | brot.go:100 | at most every sample escapes |
| Histogram.CountEscapedPositive | brot.go:100-101 | one escaped sample makes the escaped count, hence `total`, positive |
| Histogram.Total | brot.go:145-148 | `total` is the sum of the histogram array |
| Histogram.Hue | brot.go:161-164 | the hue loop returns the cumulative fraction of histogram[i] / total for i below the bound |
| Histogram.CumFracIsRatio | brot.go:161-164 | the cumulative fraction is the prefix sum divided by total |
| Histogram.PrefixSumMonotone | brot.go:161-170 | over non-negative counts, prefix sums are non-negative and grow with the prefix |
| Histogram.CumFracBounds | brot.go:161-170 | with total the sum of the histogram, both hues lie in [0, 1] and the second is at least the first |
| Histogram.CumFracComplete | brot.go:161-170 | over the whole histogram the cumulative fraction is exactly 1 |
| Colorful.Quotient | brot.go:36 | the blend weight is NaN exactly when the divisor is 0, and otherwise multiplies back to the dividend |
| Gradient.SegmentWeight | brot.go:34-37 | the blend weight is NaN exactly for two equal positions; for increasing positions it lies in [0, 1]; it places t between the two positions |
| Gradient.GetInterpolatedColorFor | brot.go:30-43 | the scan returns the gradient colour at t: the first bracketing pair's blend, else the last keypoint |
| Gradient.ScanFromFirst | brot.go:31-39 | the scan from a position returns the blend of the first bracketing pair at or after it |
| Gradient.ScanFromNone | brot.go:31-42 | a scan that meets no bracketing pair returns the last keypoint's colour |
| Gradient.ColorAtFirstBracket | brot.go:30-39 | the lookup blends the least pair i with Pos[i] <= t <= Pos[i+1] |
| Gradient.ColorAtFallback | brot.go:41-42 | with no bracketing pair, the lookup is the last keypoint's colour unmodified |
| Gradient.BracketFrom | brot.go:31-34 | on a sorted table some pair at or after lo brackets any t between Pos[lo] and the last position |
| Gradient.FallbackIffOutsideRange | brot.go:30-43 | on a sorted table of two or more keypoints, the lookup falls back exactly when t is below the first position or above the last |
| Gradient.ScanFromFound | brot.go:31-39 | when some pair at or after a position brackets t, the scan from there returns the blend of a bracketing pair |
| Gradient.ColorAtBracketed | brot.go:30-39 | when some pair brackets t, the lookup returns the blend of a bracketing pair |
| Gradient.SpanningTableBlends | brot.go:30-43 | a sorted palette spanning [0, 1] never falls back for a hue in [0, 1] |
| Sampling.SamplesOfSpec | brot.go:94-107 | one stored value per sample point, in order |
| Sampling.PixelSamplesOrder | brot.go:80-107 | each pixel stores exactly four values, for offsets (-dx,-dy), (-dx,+dy), (+dx,-dy), (+dx,+dy) in that order |
| Sampling.ViewportCorners | brot.go:90-92 | column 0 maps to xmin, row 0 to ymax (the y axis is flipped), column width to xmax and row height to ymin |
| Sampling.ViewportAffine | brot.go:90-92 | each column step adds (xmax-xmin)/width and each row step subtracts (ymax-ymin)/height |
| Sampling.ViewportMonotone | brot.go:90-92 | x increases with the column when xmax > xmin; y decreases with the row when ymax > ymin |
| Sampling.SampleOne | brot.go:96-107 | one sample stores its smooth value or +Inf, and increments exactly histogram[n] when it escaped |
| Sampling.SamplePixel | brot.go:93-109 | the four samples of a pixel, i outer and j inner: stored values and histogram updates in that order |
| Sampling.SampleRow | brot.go:91-111 | one row stores every pixel's samples, updates the histogram pixel by pixel and leaves the other rows alone |
| Sampling.SamplePhase | brot.go:78-111 | the sampling pass fills every pixel's four samples and leaves the histogram of the whole image |
| Sampling.RowHistIsAccumulate | brot.go:91-111 | the row's histogram is the one of its sample points in scan order |
| Sampling.ImageHistIsHist | brot.go:88-111 | the image's histogram is the one of all sample points in scan order |
| Sampling.RowPrefixContains | brot.go:91-107 | every sample point of a pixel in a row prefix is visited |
| Sampling.RowsContain | brot.go:88-107 | every sample point of a pixel in the first rows is visited |
| Sampling.PixelPointsInAll | brot.go:88-107 | every sample point of every pixel is visited by the sampling pass |
| Sampling.RowPrefixLength | brot.go:91-107 | a row prefix of px pixels visits 4 * px points |
| Sampling.RowsLength | brot.go:88-107 | py rows visit 4 * width * py points |
| Sampling.AllPointsLength | brot.go:88-107 | the sampling pass visits 4 * width * height points |
| Sampling.SampleAtRange | brot.go:100-106 | for any estimate below n + 1, a stored value is finite exactly when the sample escaped and then lies below iterations; it is non-negative where the estimate at that point is |
| Render.Trunc16 | brot.go:162 | `uint16(s)` for s in [0, 65536) is the largest integer not above s |
| Render.ColorSample | brot.go:158-175 | the loop body returns black for +Inf, and otherwise the HCL blend of the lookups at the two hues; `uint16(n) + 1` does not wrap |
| Render.CompositeIsPairwise | brot.go:201 | the compositor is the balanced pairwise blend of the four sample colours in order |
| Render.ColorPixel | brot.go:153-201 | `vcolors` holds each sample's colour and the pixel gets their composite |
| Render.ColorPhase | brot.go:153-203 | the colouring pass gives every pixel the composite of its sample colours |
| Render.PhaseOneSealed | brot.go:100-170 | when the estimate is non-negative at every visited point, after the sampling pass every finite value lies in [0, iterations) and total > 0, so every histogram index and division of the colouring pass is defined |
| Render.PhaseOneTotal | brot.go:145-148 | `total` is the number of escaped samples, at most 4 * width * height, and sums a histogram of non-negative counts |
| Render.SampleHues | brot.go:161-173 | both hues of a finite value lie in [0, 1], the second is at least the first, and the blend weight lies in [0, 1) |
| Render.SampleColorBlendsSegments | brot.go:161-174 | with a sorted palette spanning [0, 1], a finite value's colour blends two in-segment gradient blends |
| Render.MainPaletteSpans | brot.go:64-76 | the palette of `main`, eleven keypoints with keypoint i at position i / 10, is sorted and runs from 0 to 1, so the no-fallback lemma applies to it |
| Render.Render | brot.go:78-203 | when the estimate is non-negative at every visited point, every output pixel is the composite of its samples' colours, computed from the histogram of all sample points and the escaped count |
| Interpolation.MaxChannel | brot.go:211-216 | the largest value of a channel over the inputs, 0 for none |
| Interpolation.SumDivBound | brot.go:213-216 | with each quotient at most q, the quotients sum to at most len(colors) * q |
| Interpolation.QuotientsFit | brot.go:213 | n quotients m / n add up to at most m |
| Interpolation.QuotientSumFits | brot.go:211-216 | at most n inputs below m: their quotients by n sum to at most m |
| Interpolation.SumDivFits | brot.go:211-216 | every partial sum of quotients fits within the largest input |
| Interpolation.AccumulateStep | brot.go:213-216 | a uint16 `+=` of `uint16(c / n)` never wraps and gives the exact next partial sum |
| Interpolation.Interpolate | brot.go:208-219 | each channel is the exact sum of the quotients c / n with no wrap-around, at most the largest input channel; no input gives all zeros |
| Interpolation.UniformAverage | brot.go:211-216 | n copies of one colour average to n * (c / n) per channel |
| Interpolation.SingleColor | brot.go:211-216 | a single colour interpolates to itself |

## Left out

- I/O: PNG encoding, `image.NewRGBA`, `img.Set` with its conversion to 8-bit RGBA, and the progress prints. The model's image holds the colour terms.
- `ParseHex`: a wrapper of the colour library's hex parser that panics on error. The palette is a parameter.
- go-colorful internals: `BlendHcl`, `Clamped` and `MakeColor` are uninterpreted terms. No property of the HCL colour space is used.
- The smooth estimate `n + 1 - nu`: it is computed with `math.Log`, so it is a parameter. It is required to lie below `n + 1` everywhere (`SmoothBelow`) and to be non-negative only at the points the sampling pass visits (`SmoothNonNegativeAt`).
- float64 rounding, `math.Modf` (modelled as `s - floor(s)` on exact reals) and `math.IsInf` (modelled as the `InSet` case).
- The NaN weight: it appears only as the weight term of a blend.
- Render.Render: it requires the smooth value to be non-negative at every visited point, so viewports that reach |z| > 4 are not modelled. Only an escape at n = 0 can give a negative value: then the escaping iterate is z itself, and |z| > 4 gives nu > 1. For 4 < |z| < 16 the value lies in (-1, 0). Go truncates it toward zero, so `uint16(s)` is 0 and the result is well-defined. The hue loop then runs zero times and once, and `math.Modf` returns the negative s as the blend weight. The model does not cover this case, and the weight bound [0, 1) of `Render.SampleHues` would be false there. Only for |z| >= 16, where s <= -1, is Go's conversion to uint16 implementation-dependent. `Render.PhaseOneSealed` carries the same requirement; `Sampling.SampleAtRange` proves its lower bound only under it.
- The colour library is a free term algebra, so distinct arguments give distinct colour terms. The real HCL blend is many-to-one, and no fact that relies on that freedom is claimed.
- Render.ColorSample: `uint16(n)` is modelled only for values below the histogram length, at most 65535. The sampling pass guarantees that range, so this never truncates.
- Escape.Mandelbrot: it requires the bound to fit in 16 bits, as the uint16 counter compared against the constant does. Its first-escape property is stated through `EscapeCount` and proved in `EscapeCountSpec`.
- Interpolation.Interpolate: it requires fewer than 2^32 colours. `uint32(n)` is then exact. For n >= 2^32 it wraps to n mod 2^32, so the division uses the wrong divisor, or panics on 0 at multiples of 2^32.
- Interpolation.Interpolate: the input channels are the four values `RGBA()` returns. Its contract promises them in [0, 0xFFFF], and `RGBA()` itself is not modelled.
- The empty gradient table: `GetInterpolatedColorFor` requires a non-empty table, because Go indexes `self[-1]` and panics.
- Commented-out code: the alternative single-sample and per-sample colouring paths.
- Concurrency: there is none.
