/** Points of the complex plane with `real` coordinates (an idealisation of
    `num_complex::Complex<f64>`), and the `f64 as u32` conversion. */
module Plane {

  datatype Complex = Complex(re: real, im: real)

  const Origin: Complex := Complex(0.0, 0.0)

  function Add(a: Complex, b: Complex): Complex {
    Complex(a.re + b.re, a.im + b.im)
  }

  function Sub(a: Complex, b: Complex): (d: Complex)
    ensures Add(b, d) == a
  {
    Complex(a.re - b.re, a.im - b.im)
  }

  /** `Complex<f64> * f64`: both components times the scalar. */
  function Times(a: Complex, s: real): Complex {
    Complex(a.re * s, a.im * s)
  }

  function Min(a: real, b: real): (m: real)
    ensures m <= a && m <= b
    ensures m == a || m == b
  {
    if a <= b then a else b
  }

  function Max(a: real, b: real): (m: real)
    ensures a <= m && b <= m
    ensures m == a || m == b
  {
    if a <= b then b else a
  }

  const U32Max: nat := 0xFFFF_FFFF

  type U32 = n: nat | n <= U32Max

  /** `x as u32` on a (non-NaN) `f64`: saturating at both ends, truncating
      toward zero in between. */
  function AsU32(x: real): (n: U32)
    ensures x <= 0.0 ==> n == 0
    ensures U32Max as real <= x ==> n == U32Max
    ensures 0.0 <= x < U32Max as real ==> n as real <= x < n as real + 1.0
  {
    if x <= 0.0 then 0
    else if U32Max as real <= x then U32Max
    else x.Floor
  }
}
