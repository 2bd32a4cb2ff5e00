/** Complex admittance values, modelled exactly as a pair of reals.
    Floating-point rounding is not part of the model. */
module ComplexArith {

  datatype Complex = Complex(re: real, im: real)

  const Zero: Complex := Complex(0.0, 0.0)

  function Add(a: Complex, b: Complex): Complex
  {
    Complex(a.re + b.re, a.im + b.im)
  }

  /** The exact zero test `re == 0.0 && im == 0.0` used before a value is stored. */
  predicate IsZero(a: Complex)
  {
    a.re == 0.0 && a.im == 0.0
  }
}
