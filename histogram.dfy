/** The escape-count histogram filled in the sampling pass, its total, and the
    cumulative fractions read back in the colouring pass. */
module Histogram {
  import opened Cplx
  import opened Escape

  /** Sum of a sequence, peeled from the end (the order a left-to-right loop adds). */
  function Sum(s: seq<int>): (total: int)
  {
    if s == [] then 0 else Sum(s[..|s| - 1]) + s[|s| - 1]
  }

  /** `make([]int, n)`. */
  function Zeros(n: nat): (z: seq<int>)
    ensures |z| == n && forall k :: 0 <= k < n ==> z[k] == 0
  {
    seq(n, _ => 0)
  }

  /** `histogram[n]++`, executed only for an escaped sample (n below the length). */
  function Record(h: seq<int>, n: nat): (h2: seq<int>)
  {
    if n < |h| then h[n := h[n] + 1] else h
  }

  /** The histogram h after recording the escape counts of the points ps in order. */
  function Accumulate(h: seq<int>, ps: seq<Complex>, it: nat): (r: seq<int>)
    ensures |r| == |h|
  {
    if ps == [] then h
    else Record(Accumulate(h, ps[..|ps| - 1], it), EscapeCount(ps[|ps| - 1], it))
  }

  /** The histogram of a whole run over the sample points ps. */
  function Hist(ps: seq<Complex>, it: nat): (h: seq<int>)
  {
    Accumulate(Zeros(it), ps, it)
  }

  /** How many points of ps escape at exactly count k. */
  function CountAt(ps: seq<Complex>, it: nat, k: nat): (count: nat)
  {
    if ps == [] then 0
    else CountAt(ps[..|ps| - 1], it, k) + (if EscapeCount(ps[|ps| - 1], it) == k then 1 else 0)
  }

  /** How many points of ps escape at all (count below the bound). */
  function CountEscaped(ps: seq<Complex>, it: nat): (count: nat)
  {
    if ps == [] then 0
    else CountEscaped(ps[..|ps| - 1], it) + (if EscapeCount(ps[|ps| - 1], it) < it then 1 else 0)
  }

  /** Recording two runs of points one after the other is recording their concatenation. */
  lemma {:induction false} AccumulateAppend(h: seq<int>, a: seq<Complex>, b: seq<Complex>, it: nat)
    ensures Accumulate(h, a + b, it) == Accumulate(Accumulate(h, a, it), b, it)
    decreases |b|
  {
    if b == [] {
      assert a + b == a;
    } else {
      assert (a + b)[..|a + b| - 1] == a + b[..|b| - 1];
      AccumulateAppend(h, a, b[..|b| - 1], it);
    }
  }

  /** histogram[k] counts exactly the samples whose integer escape count is k. */
  lemma {:induction false} HistCounts(ps: seq<Complex>, it: nat)
    ensures |Hist(ps, it)| == it
    ensures forall k :: 0 <= k < it ==> Hist(ps, it)[k] == CountAt(ps, it, k)
  {
    if ps != [] {
      HistCounts(ps[..|ps| - 1], it);
    }
  }

  lemma {:induction false} SumZeros(n: nat)
    ensures Sum(Zeros(n)) == 0
  {
    if n > 0 {
      assert Zeros(n)[..n - 1] == Zeros(n - 1);
      SumZeros(n - 1);
    }
  }

  /** Incrementing one entry adds one to the sum. */
  lemma {:induction false} SumIncrement(h: seq<int>, n: nat)
    requires n < |h|
    ensures Sum(h[n := h[n] + 1]) == Sum(h) + 1
    decreases |h|
  {
    var h' := h[n := h[n] + 1];
    if n < |h| - 1 {
      assert h'[..|h'| - 1] == h[..|h| - 1][n := h[n] + 1];
      SumIncrement(h[..|h| - 1], n);
    } else {
      assert h'[..|h'| - 1] == h[..|h| - 1];
    }
  }

  lemma {:induction false} AccumulateSum(h: seq<int>, ps: seq<Complex>, it: nat)
    requires |h| == it
    ensures Sum(Accumulate(h, ps, it)) == Sum(h) + CountEscaped(ps, it)
  {
    if ps != [] {
      AccumulateSum(h, ps[..|ps| - 1], it);
      var n := EscapeCount(ps[|ps| - 1], it);
      if n < it {
        SumIncrement(Accumulate(h, ps[..|ps| - 1], it), n);
      }
    }
  }

  /** `total`, the sum of the histogram, is the number of escaped samples. */
  lemma HistTotal(ps: seq<Complex>, it: nat)
    ensures Sum(Hist(ps, it)) == CountEscaped(ps, it)
  {
    AccumulateSum(Zeros(it), ps, it);
    SumZeros(it);
  }

  /** At most every point escapes. */
  lemma {:induction false} CountEscapedAtMost(ps: seq<Complex>, it: nat)
    ensures CountEscaped(ps, it) <= |ps|
  {
    if ps != [] {
      CountEscapedAtMost(ps[..|ps| - 1], it);
    }
  }

  /** Every histogram entry is a count, hence non-negative. */
  lemma HistNonNegative(ps: seq<Complex>, it: nat)
    ensures |Hist(ps, it)| == it
    ensures forall k :: 0 <= k < it ==> Hist(ps, it)[k] >= 0
  {
    HistCounts(ps, it);
  }

  /** One escaped point anywhere makes the escaped count positive. */
  lemma {:induction false} CountEscapedPositive(ps: seq<Complex>, it: nat, p: Complex)
    requires p in ps && EscapeCount(p, it) < it
    ensures CountEscaped(ps, it) > 0
  {
    if ps[|ps| - 1] != p {
      assert p in ps[..|ps| - 1] by {
        var i :| 0 <= i < |ps| && ps[i] == p;
        assert ps[..|ps| - 1][i] == p;
      }
      CountEscapedPositive(ps[..|ps| - 1], it, p);
    }
  }

  /** The loop after the sampling pass: `total += count` over the histogram. */
  method Total(histogram: array<int>) returns (total: int)
    ensures total == Sum(histogram[..])
  {
    total := 0;
    for i := 0 to histogram.Length
      invariant total == Sum(histogram[..i])
    {
      assert histogram[..i + 1][..i] == histogram[..i];
      total := total + histogram[i];
    }
    assert histogram[..] == histogram[..histogram.Length];
  }

  /** The fraction of escaped samples with count below k: sum of h[i] / total, i < k. */
  function CumFrac(h: seq<int>, total: int, k: nat): (hue: real)
    requires k <= |h| && total > 0
  {
    if k == 0 then 0.0 else CumFrac(h, total, k - 1) + h[k - 1] as real / total as real
  }

  /** `hue += float64(histogram[i]) / float64(total)` for i below upto. */
  method Hue(histogram: array<int>, total: int, upto: nat) returns (hue: real)
    requires upto <= histogram.Length && total > 0
    ensures hue == CumFrac(histogram[..], total, upto)
  {
    hue := 0.0;
    var i := 0;
    while i < upto
      invariant 0 <= i <= upto
      invariant hue == CumFrac(histogram[..], total, i)
    {
      hue := hue + histogram[i] as real / total as real;
      i := i + 1;
    }
  }

  /** The cumulative fraction is the prefix sum divided by the total. */
  lemma {:induction false} CumFracIsRatio(h: seq<int>, total: int, k: nat)
    requires k <= |h| && total > 0
    ensures CumFrac(h, total, k) == Sum(h[..k]) as real / total as real
  {
    if k > 0 {
      CumFracIsRatio(h, total, k - 1);
      assert h[..k][..k - 1] == h[..k - 1];
    }
  }

  /** Over non-negative entries, prefix sums are non-negative and grow with k. */
  lemma {:induction false} PrefixSumMonotone(h: seq<int>, j: nat, k: nat)
    requires j <= k <= |h|
    requires forall i :: 0 <= i < |h| ==> h[i] >= 0
    ensures 0 <= Sum(h[..j]) <= Sum(h[..k])
    decreases k
  {
    if k > 0 {
      assert h[..k][..k - 1] == h[..k - 1];
      if j < k {
        PrefixSumMonotone(h, j, k - 1);
      } else {
        PrefixSumMonotone(h, j - 1, k - 1);
      }
    }
  }

  /** Both hues lie in [0, 1], and a later cumulative fraction is never smaller. */
  lemma CumFracBounds(h: seq<int>, total: int, j: nat, k: nat)
    requires j <= k <= |h| && total > 0 && total == Sum(h)
    requires forall i :: 0 <= i < |h| ==> h[i] >= 0
    ensures 0.0 <= CumFrac(h, total, j) <= CumFrac(h, total, k) <= 1.0
  {
    CumFracIsRatio(h, total, j);
    CumFracIsRatio(h, total, k);
    PrefixSumMonotone(h, j, k);
    PrefixSumMonotone(h, k, |h|);
    assert h[..|h|] == h;
    var a, b, t := Sum(h[..j]) as real, Sum(h[..k]) as real, total as real;
    assert 0.0 <= a <= b <= t;
    assert a / t <= b / t;
    assert b / t <= 1.0;
  }

  /** Over the whole histogram the cumulative fraction is exactly 1. */
  lemma CumFracComplete(h: seq<int>, total: int)
    requires total > 0 && total == Sum(h)
    ensures CumFrac(h, total, |h|) == 1.0
  {
    CumFracIsRatio(h, total, |h|);
    assert h[..|h|] == h;
    assert total as real / total as real == 1.0;
  }
}
