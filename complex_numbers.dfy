/** Complex amplitudes as pairs of exact reals, with the pruning test of the simulator. */
module ComplexNumbers {

  /** A complex number re + im*i. */
  datatype Complex = Complex(re: real, im: real)

  const Zero: Complex := Complex(0.0, 0.0)
  const One: Complex := Complex(1.0, 0.0)

  /** Square of the pruning magnitude 10^-9: |c| < 10^-9 exactly when |c|^2 < 10^-18. */
  const PruneBound: real := 0.000000000000000001

  function Add(a: Complex, b: Complex): Complex {
    Complex(a.re + b.re, a.im + b.im)
  }

  function Mul(a: Complex, b: Complex): Complex {
    Complex(a.re * b.re - a.im * b.im, a.re * b.im + a.im * b.re)
  }

  /** The squared magnitude |c|^2, the Born-rule probability weight of an amplitude. */
  function MagSq(c: Complex): (p: real)
    ensures 0.0 <= p
  {
    SquareNonNegative(c.re);
    SquareNonNegative(c.im);
    c.re * c.re + c.im * c.im
  }

  /** `apply_gate`'s `abs(c) < 1e-9` test. */
  predicate Negligible(c: Complex) {
    MagSq(c) < PruneBound
  }

  lemma SquareNonNegative(x: real)
    ensures 0.0 <= x * x
  {
    if x < 0.0 {
      assert (-x) * (-x) > 0.0;
      assert x * x == (-x) * (-x);
    }
  }
}
