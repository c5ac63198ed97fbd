/** The escape-time iterator `mandelbrot`: iterate v <- v*v + z from v = 0. */
module Escape {
  import opened Cplx

  /** One step of the quadratic map: `v*v + z`. */
  function Step(v: Complex, z: Complex): (w: Complex)
  {
    Add(Mul(v, v), z)
  }

  /** The k-th iterate of the quadratic map for the point z (Orbit(z, 0) == 0). */
  function Orbit(z: Complex, k: nat): (v: Complex)
  {
    if k == 0 then Zero
    else Step(Orbit(z, k - 1), z)
  }

  /** Whether the k-th iterate of z lies outside radius 2. */
  predicate EscapedAt(z: Complex, k: nat)
  {
    Outside(Orbit(z, k))
  }

  /** The first step index n in [from, it) whose iterate Orbit(z, n + 1) is
      outside radius 2, or it when there is none. */
  function EscapeFrom(z: Complex, it: nat, from: nat): (n: nat)
    requires from <= it
    decreases it - from
  {
    if from == it then it
    else if EscapedAt(z, from + 1) then from
    else EscapeFrom(z, it, from + 1)
  }

  /** The count n that `mandelbrot(z)` returns when the iteration bound is it. */
  function EscapeCount(z: Complex, it: nat): (n: nat)
  {
    EscapeFrom(z, it, 0)
  }

  /** The v that `mandelbrot(z)` returns: the escaping iterate, or the last one computed. */
  function FinalIterate(z: Complex, it: nat): (v: Complex)
  {
    var n := EscapeCount(z, it);
    if n < it then Orbit(z, n + 1) else Orbit(z, it)
  }

  lemma {:induction false} EscapeFromSpec(z: Complex, it: nat, from: nat)
    requires from <= it
    requires forall k :: 1 <= k <= from ==> !EscapedAt(z, k)
    ensures from <= EscapeFrom(z, it, from) <= it
    ensures EscapeFrom(z, it, from) < it ==> EscapedAt(z, EscapeFrom(z, it, from) + 1)
    ensures forall k :: 1 <= k <= EscapeFrom(z, it, from) ==> !EscapedAt(z, k)
    decreases it - from
  {
    if from < it && !EscapedAt(z, from + 1) {
      EscapeFromSpec(z, it, from + 1);
    }
  }

  /** EscapeCount is the first escape: bounded by it, the iterate after it is
      outside (unless the bound was reached) and no earlier iterate is. */
  lemma EscapeCountSpec(z: Complex, it: nat)
    ensures EscapeCount(z, it) <= it
    ensures EscapeCount(z, it) < it ==> EscapedAt(z, EscapeCount(z, it) + 1)
    ensures EscapeCount(z, it) < it ==> Outside(FinalIterate(z, it))
    ensures forall k :: 1 <= k <= EscapeCount(z, it) ==> !EscapedAt(z, k)
  {
    EscapeFromSpec(z, it, 0);
  }

  /** Conversely, the three properties of EscapeCountSpec determine the count. */
  lemma EscapeCountUnique(z: Complex, it: nat, m: nat)
    requires m <= it
    requires m < it ==> EscapedAt(z, m + 1)
    requires forall k :: 1 <= k <= m ==> !EscapedAt(z, k)
    ensures m == EscapeCount(z, it)
  {
    EscapeCountSpec(z, it);
    var n := EscapeCount(z, it);
    var early, late := EscapedAt(z, m + 1), EscapedAt(z, n + 1);
    assert m + 1 <= n ==> !early;
    assert n + 1 <= m ==> !late;
  }

  /** `mandelbrot`: counts completed steps n and stops at the first |v| > 2 or at
      the iteration bound. The counter is a uint16 compared against the bound, so
      the bound fits in 16 bits and n++ never wraps. */
  method Mandelbrot(z: Complex, iterations: nat) returns (n: nat, v: Complex)
    requires iterations <= 0xFFFF
    ensures n <= iterations
    ensures n < iterations ==> Outside(v) && v == Orbit(z, n + 1)
    ensures n == iterations ==> v == Orbit(z, iterations)
    ensures n == EscapeCount(z, iterations) && v == FinalIterate(z, iterations)
  {
    n, v := 0, Zero;
    while n < iterations
      invariant n <= iterations
      invariant v == Orbit(z, n)
      invariant forall k :: 1 <= k <= n ==> !EscapedAt(z, k)
    {
      v := Step(v, z);
      assert v == Orbit(z, n + 1);
      if Outside(v) {
        break;
      }
      n := n + 1;
    }
    EscapeCountUnique(z, iterations, n);
  }

  /** A point already outside radius 2 escapes at the first step: n == 0, v == z. */
  lemma EscapesAtOnce(z: Complex, it: nat)
    requires it > 0 && Outside(z)
    ensures EscapeCount(z, it) == 0 && FinalIterate(z, it) == z
  {
    OrbitOne(z);
    assert EscapeFrom(z, it, 0) == 0;
  }

  /** The first step from v = 0 gives v = z. */
  lemma OrbitOne(z: Complex)
    ensures Orbit(z, 1) == z
  {
    assert Mul(Zero, Zero) == Zero;
    assert Orbit(z, 0) == Zero;
  }

  lemma {:induction false} OrbitOfZero(k: nat)
    ensures Orbit(Zero, k) == Zero
  {
    if k > 0 {
      OrbitOfZero(k - 1);
    }
  }

  /** The origin never escapes: every iterate stays 0, so the count is the bound. */
  lemma OriginNeverEscapes(it: nat)
    ensures EscapeCount(Zero, it) == it && FinalIterate(Zero, it) == Zero
  {
    forall k | 1 <= k <= it
      ensures !EscapedAt(Zero, k)
    {
      OrbitOfZero(k);
    }
    EscapeCountUnique(Zero, it, it);
    OrbitOfZero(it);
  }
}
