/** Complex numbers as pairs of reals: the model's exact stand-in for Go's complex128. */
module Cplx {

  datatype Complex = Complex(re: real, im: real)

  const Zero: Complex := Complex(0.0, 0.0)

  function Add(a: Complex, b: Complex): (s: Complex)
  {
    Complex(a.re + b.re, a.im + b.im)
  }

  function Mul(a: Complex, b: Complex): (p: Complex)
  {
    Complex(a.re * b.re - a.im * b.im, a.re * b.im + a.im * b.re)
  }

  /** The squared modulus re^2 + im^2. */
  function AbsSq(v: Complex): (m: real)
  {
    v.re * v.re + v.im * v.im
  }

  /** The bailout test `cmplx.Abs(v) > 2`. Since |v| = sqrt(AbsSq(v)) and both
      sides are non-negative, it is equivalent to AbsSq(v) > 4. */
  predicate Outside(v: Complex)
  {
    AbsSq(v) > 4.0
  }
}
