/** The colouring pass of `main` and the whole program: histogram-equalised
    hues, two gradient lookups per sample, the 2x2 compositor, and `main`
    tying the sampling pass, the total and the colouring pass together. */
module Render {
  import opened Cplx
  import opened Escape
  import opened Histogram
  import opened Sampling
  import opened Colorful
  import opened Gradient

  /** What the colouring pass needs of one stored value: a finite value lies in
      [0, len(histogram)) and comes with a positive total. */
  predicate SealedSample(h: seq<int>, total: int, v: Sample)
  {
    v.Smooth? ==> total > 0 && 0.0 <= v.s < |h| as real
  }

  /** A stored pixel: exactly four values, each sealed. */
  predicate SealedPixel(h: seq<int>, total: int, vs: seq<Sample>)
  {
    |vs| == 4 && forall i :: 0 <= i < 4 ==> SealedSample(h, total, vs[i])
  }

  /** The hand-off from the sampling pass to the colouring pass. */
  ghost predicate Sealed(h: seq<int>, total: int, vimg: array2<seq<Sample>>)
    reads vimg
  {
    |h| <= 0xFFFF &&
    forall py, px :: 0 <= py < vimg.Length0 && 0 <= px < vimg.Length1 ==> SealedPixel(h, total, vimg[py, px])
  }

  /** `uint16(n)` of a float64 in [0, 65536): truncation toward zero. */
  function Trunc16(s: real): (n: nat)
    requires 0.0 <= s < 65536.0
    ensures n as real <= s < n as real + 1.0 && n <= 0xFFFF
  {
    s.Floor
  }

  /** The colour of one stored value: black for `+Inf`; otherwise the HCL blend,
      at the fractional part of s, of the gradient colours at the cumulative
      fractions below uint16(s) and below uint16(s) + 1. */
  function SampleColor(h: seq<int>, total: int, table: GradientTable, v: Sample): (c: Color)
    requires |table| > 0 && |h| <= 0xFFFF && SealedSample(h, total, v)
  {
    match v
    case InSet => Black
    case Smooth(s) =>
      var n := Trunc16(s);
      Clamped(BlendHcl(ColorAt(table, CumFrac(h, total, n)), ColorAt(table, CumFrac(h, total, n + 1)),
                       Frac(s - n as real)))
  }

  /** One iteration of the `range vpixels` loop of the colouring pass. */
  method ColorSample(histogram: array<int>, total: int, table: GradientTable, v: Sample) returns (c: Color)
    requires |table| > 0 && histogram.Length <= 0xFFFF && SealedSample(histogram[..], total, v)
    ensures c == SampleColor(histogram[..], total, table, v)
  {
    if v.InSet? {
      c := Black;
    } else {
      var n16 := Trunc16(v.s);
      var hue := Hue(histogram, total, n16);
      var color1 := GetInterpolatedColorFor(table, hue);
      var upto := (n16 + 1) % 0x1_0000;
      hue := Hue(histogram, total, upto);
      var color2 := GetInterpolatedColorFor(table, hue);
      var frac := v.s - n16 as real;
      c := Clamped(BlendHcl(color1, color2, Frac(frac)));
    }
  }

  /** `a.BlendHcl(b, 0.5).Clamped()`. */
  function Mix(a: Color, b: Color): (c: Color)
  {
    Clamped(BlendHcl(a, b, Frac(0.5)))
  }

  /** The compositor of one pixel's four colours. */
  function Composite(c0: Color, c1: Color, c2: Color, c3: Color): (c: Color)
  {
    Mix(Mix(c0, c1), Mix(c2, c3))
  }

  /** Reference: halve a list of 2^k colours and mix the halves, recursively. */
  function PairwiseBlend(cs: seq<Color>, k: nat): (c: Color)
    requires |cs| == Pow2(k)
  {
    if k == 0 then cs[0]
    else
      var half := Pow2(k - 1);
      Mix(PairwiseBlend(cs[..half], k - 1), PairwiseBlend(cs[half..], k - 1))
  }

  function Pow2(k: nat): (p: nat)
    ensures p >= 1
  {
    if k == 0 then 1 else 2 * Pow2(k - 1)
  }

  /** The compositor is the balanced pairwise blend of the four samples in order. */
  lemma CompositeIsPairwise(c0: Color, c1: Color, c2: Color, c3: Color)
    ensures Composite(c0, c1, c2, c3) == PairwiseBlend([c0, c1, c2, c3], 2)
  {
    var cs := [c0, c1, c2, c3];
    assert Pow2(1) == 2 && Pow2(2) == 4;
    PairwiseBlendPair(cs[..2], c0, c1);
    PairwiseBlendPair(cs[2..], c2, c3);
  }

  lemma PairwiseBlendPair(cs: seq<Color>, a: Color, b: Color)
    requires cs == [a, b]
    ensures |cs| == Pow2(1) && PairwiseBlend(cs, 1) == Mix(a, b)
  {
    assert cs[..1] == [a] && cs[1..] == [b];
  }

  /** The colour of one pixel from its four stored values. */
  function PixelColor(h: seq<int>, total: int, table: GradientTable, vs: seq<Sample>): (c: Color)
    requires |table| > 0 && |h| <= 0xFFFF && SealedPixel(h, total, vs)
  {
    Composite(SampleColor(h, total, table, vs[0]), SampleColor(h, total, table, vs[1]),
              SampleColor(h, total, table, vs[2]), SampleColor(h, total, table, vs[3]))
  }

  /** The colouring of one pixel: four sample colours into `vcolors`, then the compositor. */
  method ColorPixel(histogram: array<int>, total: int, table: GradientTable, vpixels: seq<Sample>)
    returns (c: Color)
    requires |table| > 0 && histogram.Length <= 0xFFFF && SealedPixel(histogram[..], total, vpixels)
    ensures c == PixelColor(histogram[..], total, table, vpixels)
  {
    var vcolors := new Color[4](_ => Black);
    for i := 0 to |vpixels|
      invariant forall k :: 0 <= k < i ==> vcolors[k] == SampleColor(histogram[..], total, table, vpixels[k])
    {
      vcolors[i] := ColorSample(histogram, total, table, vpixels[i]);
    }
    c := Composite(vcolors[0], vcolors[1], vcolors[2], vcolors[3]);
  }

  /** The colouring pass over the whole image. */
  method ColorPhase(histogram: array<int>, total: int, vimg: array2<seq<Sample>>, table: GradientTable)
    returns (img: array2<Color>)
    requires |table| > 0 && Sealed(histogram[..], total, vimg)
    ensures fresh(img) && img.Length0 == vimg.Length0 && img.Length1 == vimg.Length1
    ensures forall py, px :: 0 <= py < vimg.Length0 && 0 <= px < vimg.Length1 ==>
              img[py, px] == PixelColor(histogram[..], total, table, vimg[py, px])
  {
    img := new Color[vimg.Length0, vimg.Length1]((_, _) => Black);
    for py := 0 to vimg.Length0
      invariant forall py', px' :: 0 <= py' < py && 0 <= px' < vimg.Length1 ==>
                  img[py', px'] == PixelColor(histogram[..], total, table, vimg[py', px'])
    {
      for px := 0 to vimg.Length1
        invariant forall py', px' :: 0 <= py' < py && 0 <= px' < vimg.Length1 ==>
                    img[py', px'] == PixelColor(histogram[..], total, table, vimg[py', px'])
        invariant forall px' :: 0 <= px' < px ==>
                    img[py, px'] == PixelColor(histogram[..], total, table, vimg[py, px'])
      {
        var c := ColorPixel(histogram, total, table, vimg[py, px]);
        img[py, px] := c;
      }
    }
  }

  /** The sampling pass hands over a sealed image: four values per pixel, every
      finite value in [0, iterations), and a positive total whenever one is finite. */
  lemma PhaseOneSealed(vp: Viewport, width: nat, height: nat, it: nat, smooth: (nat, Complex) -> real,
                       px: nat, py: nat)
    requires width > 0 && height > 0 && px < width && py < height && SmoothBelow(smooth)
    requires forall p :: p in AllPoints(vp, width, height) ==> SmoothNonNegativeAt(smooth, p, it)
    ensures SealedPixel(Hist(AllPoints(vp, width, height), it), CountEscaped(AllPoints(vp, width, height), it),
                        PixelSamples(vp, width, height, px, py, it, smooth))
  {
    var all := AllPoints(vp, width, height);
    var ps := PixelPoints(vp, width, height, px, py);
    var vs := PixelSamples(vp, width, height, px, py, it, smooth);
    SamplesOfSpec(ps, it, smooth);
    HistNonNegative(all, it);
    forall k | 0 <= k < 4
      ensures SealedSample(Hist(all, it), CountEscaped(all, it), vs[k])
    {
      PixelPointsInAll(vp, width, height, px, py, k);
      SampleAtRange(ps[k], it, smooth);
      if EscapeCount(ps[k], it) < it {
        CountEscapedPositive(all, it, ps[k]);
      }
    }
  }

  /** `total` after the sampling pass is the number of escaped samples, at most
      4 * width * height, and the histogram it sums has only non-negative entries. */
  lemma PhaseOneTotal(vp: Viewport, width: nat, height: nat, it: nat)
    requires width > 0 && height > 0
    ensures var all := AllPoints(vp, width, height);
            Sum(Hist(all, it)) == CountEscaped(all, it) <= 4 * width * height &&
            |Hist(all, it)| == it && forall k :: 0 <= k < it ==> Hist(all, it)[k] >= 0
  {
    var all := AllPoints(vp, width, height);
    HistTotal(all, it);
    CountEscapedAtMost(all, it);
    AllPointsLength(vp, width, height);
    HistNonNegative(all, it);
  }

  /** For a finite value s over a histogram of counts summing to total, the two
      hues lie in [0, 1], the second is at least the first, and the blend weight
      s - uint16(s) lies in [0, 1). */
  lemma SampleHues(h: seq<int>, total: int, s: real)
    requires |h| <= 0xFFFF && SealedSample(h, total, Smooth(s))
    requires total == Sum(h) && forall k :: 0 <= k < |h| ==> h[k] >= 0
    ensures var n := Trunc16(s);
            n + 1 <= |h| &&
            0.0 <= CumFrac(h, total, n) <= CumFrac(h, total, n + 1) <= 1.0 &&
            0.0 <= s - n as real < 1.0
  {
    var n := Trunc16(s);
    CumFracBounds(h, total, n, n + 1);
  }

  /** With a sorted palette spanning [0, 1], the colour of a finite value is the
      blend, at weight s - uint16(s), of two in-segment gradient blends at the
      two hues; neither lookup falls back to the last keypoint. */
  lemma SampleColorBlendsSegments(h: seq<int>, total: int, table: GradientTable, s: real)
    requires |h| <= 0xFFFF && SealedSample(h, total, Smooth(s))
    requires total == Sum(h) && forall k :: 0 <= k < |h| ==> h[k] >= 0
    requires Sorted(table) && |table| >= 2 && table[0].pos <= 0.0 && 1.0 <= table[|table| - 1].pos
    ensures var n := Trunc16(s);
            var hue1, hue2 := CumFrac(h, total, n), CumFrac(h, total, n + 1);
            exists i: nat, j: nat :: i + 1 < |table| && j + 1 < |table| && Brackets(table, i, hue1) && Brackets(table, j, hue2) &&
              SampleColor(h, total, table, Smooth(s))
              == Clamped(BlendHcl(SegmentColor(table, i, hue1), SegmentColor(table, j, hue2), Frac(s - n as real)))
  {
    var n := Trunc16(s);
    SampleHues(h, total, s);
    var hue1, hue2 := CumFrac(h, total, n), CumFrac(h, total, n + 1);
    SpanningTableBlends(table, hue1);
    SpanningTableBlends(table, hue2);
    var i: nat :| i + 1 < |table| && Brackets(table, i, hue1) && ColorAt(table, hue1) == SegmentColor(table, i, hue1);
    var j: nat :| j + 1 < |table| && Brackets(table, j, hue2) && ColorAt(table, hue2) == SegmentColor(table, j, hue2);
    assert SampleColor(h, total, table, Smooth(s))
      == Clamped(BlendHcl(SegmentColor(table, i, hue1), SegmentColor(table, j, hue2), Frac(s - n as real)));
  }

  /** The palette of `main`: eleven keypoints at positions 0.0, 0.1, ..., 1.0
      (the colours come from `ParseHex` and are parameters). */
  function MainPalette(cols: seq<Color>): (table: GradientTable)
    requires |cols| == 11
  {
    seq(11, i requires 0 <= i < 11 => Keypoint(cols[i], i as real / 10.0))
  }

  /** The palette of `main` is sorted and spans [0, 1], so its lookups at the
      hues of the colouring pass never fall back to the last keypoint. */
  lemma MainPaletteSpans(cols: seq<Color>)
    requires |cols| == 11
    ensures var table := MainPalette(cols);
            Sorted(table) && table[0].pos == 0.0 && table[10].pos == 1.0
  {
    var table := MainPalette(cols);
    forall i, j | 0 <= i <= j < 11
      ensures table[i].pos <= table[j].pos
    {
      assert i as real / 10.0 <= j as real / 10.0;
    }
  }

  /** `main`: the sampling pass, the total, and the colouring pass. Every output
      pixel is the composite of its four sample colours, computed from the
      histogram of all sample points and the number of escaped samples. */
  method Render(vp: Viewport, width: nat, height: nat, iterations: nat,
                smooth: (nat, Complex) -> real, table: GradientTable)
    returns (img: array2<Color>)
    requires width > 0 && height > 0 && iterations <= 0xFFFF && |table| > 0 && SmoothBelow(smooth)
    requires forall p :: p in AllPoints(vp, width, height) ==> SmoothNonNegativeAt(smooth, p, iterations)
    ensures fresh(img) && img.Length0 == height && img.Length1 == width
    ensures forall py, px :: 0 <= py < height && 0 <= px < width ==>
              SealedPixel(Hist(AllPoints(vp, width, height), iterations),
                          CountEscaped(AllPoints(vp, width, height), iterations),
                          PixelSamples(vp, width, height, px, py, iterations, smooth)) &&
              img[py, px] == PixelColor(Hist(AllPoints(vp, width, height), iterations),
                                        CountEscaped(AllPoints(vp, width, height), iterations), table,
                                        PixelSamples(vp, width, height, px, py, iterations, smooth))
  {
    var histogram, vimg := SamplePhase(vp, width, height, iterations, smooth);
    ghost var all := AllPoints(vp, width, height);
    ImageHistIsHist(vp, width, height, height, iterations);
    var total := Total(histogram);
    HistTotal(all, iterations);
    forall py, px | 0 <= py < height && 0 <= px < width
      ensures SealedPixel(histogram[..], total, vimg[py, px])
    {
      PhaseOneSealed(vp, width, height, iterations, smooth, px, py);
    }
    img := ColorPhase(histogram, total, vimg, table);
  }
}
