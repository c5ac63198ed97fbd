/** The sampling pass of `main`: map every pixel to four sub-pixel points, run
    the iterator on each, store the smooth values per pixel and fill the
    escape-count histogram. */
module Sampling {
  import opened Cplx
  import opened Escape
  import opened Histogram

  /** The rectangle of the complex plane that is rendered. */
  datatype Viewport = Viewport(xmin: real, ymin: real, xmax: real, ymax: real)

  /** A stored sample value `nfloat`: a finite smooth iteration value, or the
      `+Inf` sentinel of a sample that never escaped. */
  datatype Sample = Smooth(s: real) | InSet

  /** The real part of pixel column px: `float64(px)/width*(xmax-xmin) + xmin`. */
  function PixelX(vp: Viewport, width: nat, px: int): (x: real)
    requires width > 0
  {
    px as real / width as real * (vp.xmax - vp.xmin) + vp.xmin
  }

  /** The imaginary part of pixel row py, flipped: `float64(py)/height*(ymin-ymax) + ymax`. */
  function PixelY(vp: Viewport, height: nat, py: int): (y: real)
    requires height > 0
  {
    py as real / height as real * (vp.ymin - vp.ymax) + vp.ymax
  }

  /** `xdelta`: a quarter of one pixel's width. */
  function XDelta(vp: Viewport, width: nat): (dx: real)
    requires width > 0
  {
    (vp.xmax - vp.xmin) / width as real / 4.0
  }

  /** `ydelta`: a quarter of one pixel's height. */
  function YDelta(vp: Viewport, height: nat): (dy: real)
    requires height > 0
  {
    (vp.ymax - vp.ymin) / height as real / 4.0
  }

  /** `offX := []float64{-xdelta, xdelta}`. */
  function OffX(vp: Viewport, width: nat): (offs: seq<real>)
    requires width > 0
  {
    [-XDelta(vp, width), XDelta(vp, width)]
  }

  /** `offY := []float64{-ydelta, ydelta}`. */
  function OffY(vp: Viewport, height: nat): (offs: seq<real>)
    requires height > 0
  {
    [-YDelta(vp, height), YDelta(vp, height)]
  }

  /** The points `complex(x+offX[i], y+offY[j])` in the order of the loops,
      i outer and j inner: point 2*i + j. */
  function SubPixelPoints(x: real, y: real, offX: seq<real>, offY: seq<real>): (ps: seq<Complex>)
    requires |offX| == 2 && |offY| == 2
  {
    [Complex(x + offX[0], y + offY[0]), Complex(x + offX[0], y + offY[1]),
     Complex(x + offX[1], y + offY[0]), Complex(x + offX[1], y + offY[1])]
  }

  /** The four sample points of pixel (px, py). */
  function PixelPoints(vp: Viewport, width: nat, height: nat, px: int, py: int): (ps: seq<Complex>)
    requires width > 0 && height > 0
  {
    SubPixelPoints(PixelX(vp, width, px), PixelY(vp, height, py), OffX(vp, width), OffY(vp, height))
  }

  /** The smooth estimate is a parameter of the model: `smooth(n, zn)` stands for
      `float64(n) + 1 - nu` with nu the log-log correction of the escaped zn.
      Every escaped zn has |zn| > 2, so log2(log2 |zn|) > 0 and the value lies
      below n + 1. */
  ghost predicate SmoothBelow(smooth: (nat, Complex) -> real)
  {
    forall n: nat, v: Complex :: Outside(v) ==> smooth(n, v) < n as real + 1.0
  }

  /** The smooth value of point p, if p escapes, is not negative. This does not
      hold everywhere: a point with |p| > 4 escapes at n = 0 with nu > 1, so its
      value is below 0. */
  ghost predicate SmoothNonNegativeAt(smooth: (nat, Complex) -> real, p: Complex, it: nat)
  {
    var n := EscapeCount(p, it);
    n < it ==> 0.0 <= smooth(n, Orbit(p, n + 1))
  }

  /** The value stored for one sample point: the smooth value of the escaping
      iterate Orbit(p, n + 1) when the count n is below the bound, else `+Inf`. */
  function SampleAt(p: Complex, it: nat, smooth: (nat, Complex) -> real): (v: Sample)
  {
    var n := EscapeCount(p, it);
    if n < it then Smooth(smooth(n, Orbit(p, n + 1))) else InSet
  }

  /** The values stored for a list of sample points, in order. */
  function SamplesOf(ps: seq<Complex>, it: nat, smooth: (nat, Complex) -> real): (vs: seq<Sample>)
  {
    if ps == [] then [] else SamplesOf(ps[..|ps| - 1], it, smooth) + [SampleAt(ps[|ps| - 1], it, smooth)]
  }

  /** `vimg[py][px]`: the four stored values of pixel (px, py). */
  function PixelSamples(vp: Viewport, width: nat, height: nat, px: int, py: int,
                        it: nat, smooth: (nat, Complex) -> real): (vs: seq<Sample>)
    requires width > 0 && height > 0
  {
    SamplesOf(PixelPoints(vp, width, height, px, py), it, smooth)
  }

  /** The sample points of the first px pixels of row py, in scan order. */
  function RowPrefix(vp: Viewport, width: nat, height: nat, py: nat, px: nat): (ps: seq<Complex>)
    requires width > 0 && height > 0
  {
    if px == 0 then []
    else RowPrefix(vp, width, height, py, px - 1) + PixelPoints(vp, width, height, px - 1, py)
  }

  /** The sample points of the first py rows, in scan order. */
  function Rows(vp: Viewport, width: nat, height: nat, py: nat): (ps: seq<Complex>)
    requires width > 0 && height > 0
  {
    if py == 0 then []
    else Rows(vp, width, height, py - 1) + RowPrefix(vp, width, height, py - 1, width)
  }

  /** Every sample point of the image, in the order the sampling pass visits them. */
  function AllPoints(vp: Viewport, width: nat, height: nat): (ps: seq<Complex>)
    requires width > 0 && height > 0
  {
    Rows(vp, width, height, height)
  }

  /** SamplesOf keeps one stored value per point, in the order of the points. */
  lemma {:induction false} SamplesOfSpec(ps: seq<Complex>, it: nat, smooth: (nat, Complex) -> real)
    ensures |SamplesOf(ps, it, smooth)| == |ps|
    ensures forall k :: 0 <= k < |ps| ==> SamplesOf(ps, it, smooth)[k] == SampleAt(ps[k], it, smooth)
  {
    if ps != [] {
      SamplesOfSpec(ps[..|ps| - 1], it, smooth);
    }
  }

  /** Sample order: each pixel's stored list holds exactly four values, for the
      points (-xdelta,-ydelta), (-xdelta,+ydelta), (+xdelta,-ydelta), (+xdelta,+ydelta)
      around the pixel's point, in that order. */
  lemma PixelSamplesOrder(vp: Viewport, width: nat, height: nat, px: int, py: int,
                          it: nat, smooth: (nat, Complex) -> real)
    requires width > 0 && height > 0
    ensures var x, y := PixelX(vp, width, px), PixelY(vp, height, py);
            var dx, dy := XDelta(vp, width), YDelta(vp, height);
            PixelSamples(vp, width, height, px, py, it, smooth)
            == [SampleAt(Complex(x - dx, y - dy), it, smooth), SampleAt(Complex(x - dx, y + dy), it, smooth),
                SampleAt(Complex(x + dx, y - dy), it, smooth), SampleAt(Complex(x + dx, y + dy), it, smooth)]
  {
    var ps := PixelPoints(vp, width, height, px, py);
    SamplesOfSpec(ps, it, smooth);
  }

  /** Viewport mapping: column 0 is xmin, row 0 is ymax (the y axis is flipped),
      column width is xmax and row height is ymin. */
  lemma ViewportCorners(vp: Viewport, width: nat, height: nat)
    requires width > 0 && height > 0
    ensures PixelX(vp, width, 0) == vp.xmin && PixelY(vp, height, 0) == vp.ymax
    ensures PixelX(vp, width, width) == vp.xmax && PixelY(vp, height, height) == vp.ymin
  {
    assert width as real / width as real == 1.0;
    assert height as real / height as real == 1.0;
  }

  /** The mapping is affine: each column step adds (xmax-xmin)/width and each row
      step subtracts (ymax-ymin)/height. */
  lemma ViewportAffine(vp: Viewport, width: nat, height: nat, px: int, py: int)
    requires width > 0 && height > 0
    ensures PixelX(vp, width, px + 1) - PixelX(vp, width, px) == (vp.xmax - vp.xmin) / width as real
    ensures PixelY(vp, height, py + 1) - PixelY(vp, height, py) == -((vp.ymax - vp.ymin) / height as real)
  {
    var w, h := width as real, height as real;
    assert (px + 1) as real / w == px as real / w + 1.0 / w;
    assert (py + 1) as real / h == py as real / h + 1.0 / h;
  }

  /** x grows with the column when xmax > xmin; y falls with the row when ymax > ymin. */
  lemma ViewportMonotone(vp: Viewport, width: nat, height: nat, a: int, b: int)
    requires width > 0 && height > 0 && a < b
    ensures vp.xmax > vp.xmin ==> PixelX(vp, width, a) < PixelX(vp, width, b)
    ensures vp.ymax > vp.ymin ==> PixelY(vp, height, a) > PixelY(vp, height, b)
  {
    var w, h := width as real, height as real;
    assert a as real / w < b as real / w;
    assert a as real / h < b as real / h;
  }

  /** One sample: run the iterator; an escaped sample bumps `histogram[n]` and
      stores its smooth value, any other stores `+Inf`. */
  method SampleOne(histogram: array<int>, z: Complex, iterations: nat, smooth: (nat, Complex) -> real)
    returns (nfloat: Sample)
    requires histogram.Length == iterations && iterations <= 0xFFFF
    modifies histogram
    ensures nfloat == SampleAt(z, iterations, smooth)
    ensures histogram[..] == Record(old(histogram[..]), EscapeCount(z, iterations))
  {
    var n, zn := Mandelbrot(z, iterations);
    if n < iterations {
      histogram[n] := histogram[n] + 1;
      nfloat := Smooth(smooth(n, zn));
    } else {
      nfloat := InSet;
    }
  }

  /** The inner loops of one pixel: four samples, i outer and j inner.
      Escaped samples bump `histogram[n]` and store a smooth value; the others store `+Inf`. */
  method SamplePixel(histogram: array<int>, x: real, y: real, offX: seq<real>, offY: seq<real>,
                     iterations: nat, smooth: (nat, Complex) -> real)
    returns (vpixels: seq<Sample>)
    requires |offX| == 2 && |offY| == 2 && histogram.Length == iterations && iterations <= 0xFFFF
    modifies histogram
    ensures |vpixels| == 4
    ensures vpixels == SamplesOf(SubPixelPoints(x, y, offX, offY), iterations, smooth)
    ensures histogram[..] == Accumulate(old(histogram[..]), SubPixelPoints(x, y, offX, offY), iterations)
  {
    ghost var h0 := histogram[..];
    ghost var pts := SubPixelPoints(x, y, offX, offY);
    vpixels := [];
    var i := 0;
    while i < 2
      invariant 0 <= i <= 2
      invariant |vpixels| == 2 * i
      invariant vpixels == SamplesOf(pts[..2 * i], iterations, smooth)
      invariant histogram[..] == Accumulate(h0, pts[..2 * i], iterations)
    {
      var j := 0;
      while j < 2
        invariant 0 <= j <= 2
        invariant |vpixels| == 2 * i + j
        invariant vpixels == SamplesOf(pts[..2 * i + j], iterations, smooth)
        invariant histogram[..] == Accumulate(h0, pts[..2 * i + j], iterations)
      {
        var z := Complex(x + offX[i], y + offY[j]);
        ghost var k := 2 * i + j;
        assert pts[k] == z;
        assert pts[..k + 1][..k] == pts[..k];
        var nfloat := SampleOne(histogram, z, iterations, smooth);
        vpixels := vpixels + [nfloat];
        j := j + 1;
      }
      i := i + 1;
    }
    assert pts[..4] == pts;
  }

  /** The histogram after the first px pixels of row py, starting from h. */
  function RowHist(h: seq<int>, vp: Viewport, width: nat, height: nat, py: nat, px: nat, it: nat): (h2: seq<int>)
    requires width > 0 && height > 0
  {
    if px == 0 then h
    else Accumulate(RowHist(h, vp, width, height, py, px - 1, it), PixelPoints(vp, width, height, px - 1, py), it)
  }

  /** The histogram after the first py rows. */
  function ImageHist(vp: Viewport, width: nat, height: nat, py: nat, it: nat): (h: seq<int>)
    requires width > 0 && height > 0
  {
    if py == 0 then Zeros(it)
    else RowHist(ImageHist(vp, width, height, py - 1, it), vp, width, height, py - 1, width, it)
  }

  /** One row py of the sampling pass: the px loop of `main`. */
  method SampleRow(histogram: array<int>, vimg: array2<seq<Sample>>, vp: Viewport, width: nat, height: nat,
                   py: nat, iterations: nat, smooth: (nat, Complex) -> real)
    requires width > 0 && height > 0 && py < height && iterations <= 0xFFFF
    requires histogram.Length == iterations && vimg.Length0 == height && vimg.Length1 == width
    modifies histogram, vimg
    ensures histogram[..] == RowHist(old(histogram[..]), vp, width, height, py, width, iterations)
    ensures forall px :: 0 <= px < width ==>
              vimg[py, px] == PixelSamples(vp, width, height, px, py, iterations, smooth)
    ensures forall py', px :: 0 <= py' < height && py' != py && 0 <= px < width ==>
              vimg[py', px] == old(vimg[py', px])
  {
    ghost var h0 := histogram[..];
    var y := PixelY(vp, height, py);
    var offX, offY := OffX(vp, width), OffY(vp, height);
    var px := 0;
    while px < width
      invariant 0 <= px <= width
      invariant histogram[..] == RowHist(h0, vp, width, height, py, px, iterations)
      invariant forall px' :: 0 <= px' < px ==>
                  vimg[py, px'] == PixelSamples(vp, width, height, px', py, iterations, smooth)
      invariant forall py', px' :: 0 <= py' < height && py' != py && 0 <= px' < width ==>
                  vimg[py', px'] == old(vimg[py', px'])
    {
      var x := PixelX(vp, width, px);
      var vpixels := SamplePixel(histogram, x, y, offX, offY, iterations, smooth);
      vimg[py, px] := vpixels;
      px := px + 1;
    }
  }

  /** The sampling pass over the whole image (the nested py/px loops of `main`). */
  method SamplePhase(vp: Viewport, width: nat, height: nat, iterations: nat,
                     smooth: (nat, Complex) -> real)
    returns (histogram: array<int>, vimg: array2<seq<Sample>>)
    requires width > 0 && height > 0 && iterations <= 0xFFFF
    ensures fresh(histogram) && fresh(vimg)
    ensures histogram.Length == iterations && vimg.Length0 == height && vimg.Length1 == width
    ensures histogram[..] == ImageHist(vp, width, height, height, iterations)
    ensures forall py, px :: 0 <= py < height && 0 <= px < width ==>
              vimg[py, px] == PixelSamples(vp, width, height, px, py, iterations, smooth)
  {
    histogram := new int[iterations](_ => 0);
    vimg := new seq<Sample>[height, width];
    assert histogram[..] == Zeros(iterations);
    var py := 0;
    while py < height
      invariant 0 <= py <= height
      invariant histogram[..] == ImageHist(vp, width, height, py, iterations)
      invariant forall py', px' :: 0 <= py' < py && 0 <= px' < width ==>
                  vimg[py', px'] == PixelSamples(vp, width, height, px', py', iterations, smooth)
    {
      SampleRow(histogram, vimg, vp, width, height, py, iterations, smooth);
      py := py + 1;
    }
  }

  lemma {:induction false} RowHistIsAccumulate(h: seq<int>, vp: Viewport, width: nat, height: nat,
                                               py: nat, px: nat, it: nat)
    requires width > 0 && height > 0
    ensures RowHist(h, vp, width, height, py, px, it) == Accumulate(h, RowPrefix(vp, width, height, py, px), it)
  {
    if px > 0 {
      RowHistIsAccumulate(h, vp, width, height, py, px - 1, it);
      AccumulateAppend(h, RowPrefix(vp, width, height, py, px - 1), PixelPoints(vp, width, height, px - 1, py), it);
    }
  }

  /** The nested loops fill the histogram of all sample points, in scan order. */
  lemma {:induction false} ImageHistIsHist(vp: Viewport, width: nat, height: nat, py: nat, it: nat)
    requires width > 0 && height > 0
    ensures ImageHist(vp, width, height, py, it) == Hist(Rows(vp, width, height, py), it)
  {
    if py > 0 {
      ImageHistIsHist(vp, width, height, py - 1, it);
      var before := Rows(vp, width, height, py - 1);
      RowHistIsAccumulate(Hist(before, it), vp, width, height, py - 1, width, it);
      AccumulateAppend(Zeros(it), before, RowPrefix(vp, width, height, py - 1, width), it);
    }
  }

  lemma {:induction false} RowPrefixContains(vp: Viewport, width: nat, height: nat, py: nat, px: nat, n: nat, k: nat)
    requires width > 0 && height > 0 && px < n && k < 4
    ensures PixelPoints(vp, width, height, px, py)[k] in RowPrefix(vp, width, height, py, n)
    decreases n
  {
    var p := PixelPoints(vp, width, height, px, py)[k];
    var front, last := RowPrefix(vp, width, height, py, n - 1), PixelPoints(vp, width, height, n - 1, py);
    assert RowPrefix(vp, width, height, py, n) == front + last;
    if px < n - 1 {
      RowPrefixContains(vp, width, height, py, px, n - 1, k);
      InConcat(p, front, last);
    } else {
      assert p == last[k];
      InConcat(p, front, last);
    }
  }

  lemma {:induction false} RowsContain(vp: Viewport, width: nat, height: nat, py: nat, px: nat, m: nat, k: nat)
    requires width > 0 && height > 0 && py < m && px < width && k < 4
    ensures PixelPoints(vp, width, height, px, py)[k] in Rows(vp, width, height, m)
    decreases m
  {
    var p := PixelPoints(vp, width, height, px, py)[k];
    var front, last := Rows(vp, width, height, m - 1), RowPrefix(vp, width, height, m - 1, width);
    assert Rows(vp, width, height, m) == front + last;
    if py < m - 1 {
      RowsContain(vp, width, height, py, px, m - 1, k);
    } else {
      RowPrefixContains(vp, width, height, py, px, width, k);
    }
    InConcat(p, front, last);
  }

  lemma InConcat(p: Complex, a: seq<Complex>, b: seq<Complex>)
    requires p in a || p in b
    ensures p in a + b
  {
    if p in b {
      var i :| 0 <= i < |b| && b[i] == p;
      assert (a + b)[|a| + i] == p;
    }
  }

  lemma {:induction false} RowPrefixLength(vp: Viewport, width: nat, height: nat, py: nat, px: nat)
    requires width > 0 && height > 0
    ensures |RowPrefix(vp, width, height, py, px)| == 4 * px
  {
    if px > 0 {
      RowPrefixLength(vp, width, height, py, px - 1);
    }
  }

  lemma {:induction false} RowsLength(vp: Viewport, width: nat, height: nat, py: nat)
    requires width > 0 && height > 0
    ensures |Rows(vp, width, height, py)| == 4 * width * py
  {
    if py > 0 {
      RowsLength(vp, width, height, py - 1);
      RowPrefixLength(vp, width, height, py - 1, width);
      assert 4 * width * py == 4 * width * (py - 1) + 4 * width;
    }
  }

  /** The sampling pass visits four points per pixel: 4 * width * height in all. */
  lemma AllPointsLength(vp: Viewport, width: nat, height: nat)
    requires width > 0 && height > 0
    ensures |AllPoints(vp, width, height)| == 4 * width * height
  {
    RowsLength(vp, width, height, height);
  }

  /** Every sample point of every pixel is visited by the sampling pass. */
  lemma PixelPointsInAll(vp: Viewport, width: nat, height: nat, px: nat, py: nat, k: nat)
    requires width > 0 && height > 0 && py < height && px < width && k < 4
    ensures PixelPoints(vp, width, height, px, py)[k] in AllPoints(vp, width, height)
  {
    RowsContain(vp, width, height, py, px, height, k);
  }

  /** A stored value is finite exactly when the sample escaped, and then lies
      below iterations; it is non-negative where the estimate is. */
  lemma SampleAtRange(p: Complex, it: nat, smooth: (nat, Complex) -> real)
    requires SmoothBelow(smooth)
    ensures SampleAt(p, it, smooth).Smooth? <==> EscapeCount(p, it) < it
    ensures SampleAt(p, it, smooth).Smooth? ==> SampleAt(p, it, smooth).s < it as real
    ensures SmoothNonNegativeAt(smooth, p, it) && SampleAt(p, it, smooth).Smooth? ==> 0.0 <= SampleAt(p, it, smooth).s
  {
    EscapeCountSpec(p, it);
  }
}
