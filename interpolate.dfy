/** `interpolate`: the channel-wise average of a list of colours by uint16
    accumulation of `uint16(c / uint32(n))`. */
module Interpolation {

  /** The four channels `RGBA()` returns for one colour (16-bit values in uint32s). */
  datatype Rgba = Rgba(r: nat, g: nat, b: nat, a: nat)

  datatype Channel = R | G | B | A

  function Get(c: Rgba, ch: Channel): (v: nat)
  {
    match ch
    case R => c.r
    case G => c.g
    case B => c.b
    case A => c.a
  }

  /** Every channel of every input lies in [0, 0xFFFF], as `RGBA()` promises. */
  predicate InRange(colors: seq<Rgba>)
  {
    forall k, ch :: 0 <= k < |colors| ==> Get(colors[k], ch) <= 0xFFFF
  }

  /** The exact sum of the quotients c / n of one channel. */
  function SumDiv(colors: seq<Rgba>, ch: Channel, n: nat): (sum: nat)
    requires n > 0
  {
    if colors == [] then 0 else SumDiv(colors[..|colors| - 1], ch, n) + Get(colors[|colors| - 1], ch) / n
  }

  /** The largest value of one channel over the inputs (0 for none). */
  function MaxChannel(colors: seq<Rgba>, ch: Channel): (m: nat)
    ensures forall k :: 0 <= k < |colors| ==> Get(colors[k], ch) <= m
    ensures colors == [] ==> m == 0
    ensures colors != [] ==> exists k :: 0 <= k < |colors| && Get(colors[k], ch) == m
  {
    if colors == [] then 0
    else
      var m := MaxChannel(colors[..|colors| - 1], ch);
      var c := Get(colors[|colors| - 1], ch);
      if c > m then c else m
  }

  /** When each quotient is at most q, the sum over the inputs is at most |colors| * q. */
  lemma {:induction false} SumDivBound(colors: seq<Rgba>, ch: Channel, n: nat, q: nat)
    requires n > 0
    requires forall k :: 0 <= k < |colors| ==> Get(colors[k], ch) / n <= q
    ensures SumDiv(colors, ch, n) <= |colors| * q
  {
    if colors != [] {
      var front := colors[..|colors| - 1];
      assert forall k :: 0 <= k < |front| ==> front[k] == colors[k];
      SumDivBound(front, ch, n, q);
      var k := |front|;
      assert |colors| * q == k * q + q;
    }
  }

  lemma MulCancel(x: int, y: int, n: nat)
    requires n > 0 && x * n < y * n
    ensures x < y
  {
  }

  lemma DivMonotone(a: nat, b: nat, n: nat)
    requires a <= b && n > 0
    ensures a / n <= b / n
  {
    var qa, qb := a / n, b / n;
    assert qa * n <= a;
    assert b < qb * n + n;
    assert qa * n < (qb + 1) * n;
    MulCancel(qa, qb + 1, n);
  }

  /** n copies of m / n add up to at most m. */
  lemma QuotientsFit(k: nat, n: nat, m: nat)
    requires 0 < n && k <= n
    ensures k * (m / n) <= m
  {
    assert m / n * n + m % n == m;
    assert k * (m / n) <= n * (m / n);
  }

  /** At most n inputs whose channel is at most m: the quotients by n sum to at most m. */
  lemma QuotientSumFits(colors: seq<Rgba>, ch: Channel, n: nat, m: nat)
    requires 0 < n && |colors| <= n
    requires forall k :: 0 <= k < |colors| ==> Get(colors[k], ch) <= m
    ensures SumDiv(colors, ch, n) <= m
  {
    forall k | 0 <= k < |colors|
      ensures Get(colors[k], ch) / n <= m / n
    {
      DivMonotone(Get(colors[k], ch), m, n);
    }
    SumDivBound(colors, ch, n, m / n);
    QuotientsFit(|colors|, n, m);
  }

  /** The sum of the quotients over any prefix fits in the largest input value. */
  lemma SumDivFits(colors: seq<Rgba>, ch: Channel, n: nat, i: nat)
    requires 0 < n && |colors| == n && i <= n
    ensures SumDiv(colors[..i], ch, n) <= MaxChannel(colors, ch)
  {
    var pre := colors[..i];
    assert forall k :: 0 <= k < |pre| ==> pre[k] == colors[k];
    QuotientSumFits(pre, ch, n, MaxChannel(colors, ch));
  }

  /** uint16 addition `x += y`, wrapping modulo 2^16. */
  function AddU16(x: nat, y: nat): (sum: nat)
  {
    (x + y) % 0x1_0000
  }

  /** One step of the loop on one channel: adding `uint16(c / n)` with wrap-around
      gives the exact next partial sum. */
  lemma AccumulateStep(colors: seq<Rgba>, ch: Channel, n: nat, i: nat, acc: nat)
    requires 0 < n && |colors| == n && i < n && InRange(colors)
    requires acc == SumDiv(colors[..i], ch, n)
    ensures AddU16(acc, (Get(colors[i], ch) / n) % 0x1_0000) == SumDiv(colors[..i + 1], ch, n)
  {
    assert colors[..i + 1][..i] == colors[..i];
    SumDivFits(colors, ch, n, i + 1);
    assert Get(colors[i], ch) <= 0xFFFF;
    DivMonotone(Get(colors[i], ch), 0xFFFF, n);
  }

  /** `interpolate`. The accumulators are uint16 and every addition wraps modulo
      2^16 as written; the quotients never add up past the largest input, so no
      addition wraps and each channel is the exact sum of the quotients. */
  method Interpolate(colors: seq<Rgba>) returns (res: Rgba)
    requires |colors| < 0x1_0000_0000 && InRange(colors)
    ensures forall ch :: Get(res, ch) == (if colors == [] then 0 else SumDiv(colors, ch, |colors|))
    ensures forall ch :: Get(res, ch) <= MaxChannel(colors, ch)
  {
    var r, g, b, a := 0, 0, 0, 0;
    var n := |colors|;
    var n32 := n % 0x1_0000_0000;
    var i := 0;
    while i < n
      invariant 0 <= i <= n && n32 == n
      invariant n > 0 ==> (r == SumDiv(colors[..i], R, n) && g == SumDiv(colors[..i], G, n) &&
                           b == SumDiv(colors[..i], B, n) && a == SumDiv(colors[..i], A, n))
      invariant n == 0 ==> r == 0 && g == 0 && b == 0 && a == 0
    {
      var c := colors[i];
      AccumulateStep(colors, R, n, i, r);
      AccumulateStep(colors, G, n, i, g);
      AccumulateStep(colors, B, n, i, b);
      AccumulateStep(colors, A, n, i, a);
      r := AddU16(r, (c.r / n32) % 0x1_0000);
      g := AddU16(g, (c.g / n32) % 0x1_0000);
      b := AddU16(b, (c.b / n32) % 0x1_0000);
      a := AddU16(a, (c.a / n32) % 0x1_0000);
      i := i + 1;
    }
    res := Rgba(r, g, b, a);
    if n > 0 {
      assert colors[..n] == colors;
      SumDivFits(colors, R, n, n);
      SumDivFits(colors, G, n, n);
      SumDivFits(colors, B, n, n);
      SumDivFits(colors, A, n, n);
    }
  }

  /** Averaging n copies of one colour gives n * (c / n) per channel, at most c;
      a single colour comes back unchanged. */
  lemma {:induction false} UniformAverage(colors: seq<Rgba>, c: Rgba, ch: Channel, n: nat)
    requires n > 0 && forall k :: 0 <= k < |colors| ==> colors[k] == c
    ensures SumDiv(colors, ch, n) == |colors| * (Get(c, ch) / n)
  {
    if colors != [] {
      var front := colors[..|colors| - 1];
      assert forall k :: 0 <= k < |front| ==> front[k] == c;
      UniformAverage(front, c, ch, n);
      var q, k := Get(c, ch) / n, |front|;
      assert SumDiv(colors, ch, n) == k * q + q;
      assert (k + 1) * q == k * q + q;
    }
  }

  /** A single colour interpolates to itself. */
  lemma SingleColor(c: Rgba, ch: Channel)
    ensures SumDiv([c], ch, 1) == Get(c, ch)
  {
    UniformAverage([c], c, ch, 1);
  }
}
