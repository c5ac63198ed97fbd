/** The colour library as uninterpreted terms. A colour is either a plain RGB
    value or the symbolic result of the library calls `BlendHcl` and `Clamped`;
    nothing is assumed about what those calls compute, so every fact proved
    about a colour is a fact about which calls produce it, with which inputs. */
module Colorful {

  /** A blend weight: a float64 fraction, or the NaN that 0/0 produces. */
  datatype Weight = Frac(v: real) | NaN

  datatype Color =
    | Rgb(r: real, g: real, b: real)
    | BlendHcl(from: Color, to: Color, t: Weight)
    | Clamped(c: Color)

  /** `colorful.MakeColor(color.Black)`. */
  const Black: Color := Rgb(0.0, 0.0, 0.0)

  /** The quotient a / b of float64 division where the divisor can only be 0
      when the dividend is too (0/0 is NaN). */
  function Quotient(a: real, b: real): (w: Weight)
    requires b == 0.0 ==> a == 0.0
    ensures w.NaN? <==> b == 0.0
    ensures w.Frac? ==> w.v * b == a
  {
    if b == 0.0 then NaN else Frac(a / b)
  }
}
