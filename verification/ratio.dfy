/** Exact quotients. The source divides in floating point; the model keeps
    numerator and denominator as integers and compares on them. */
module Ratios {

  /** The quotient `num / den`, standing for 0 when `den` is 0 (the source's
      `x / n if n > 0 else 0`). */
  datatype Fraction = Fraction(num: int, den: nat)

  function Value(f: Fraction): (v: real)
    ensures f.den == 0 ==> v == 0.0
    ensures f.den > 0 && f.num >= 0 ==> v >= 0.0
    ensures f.den > 0 && f.num <= 0 ==> v <= 0.0
  {
    if f.den == 0 then 0.0 else f.num as real / f.den as real
  }

  /** Comparing a quotient with a threshold `t` is comparing its numerator
      with `t` times its denominator. */
  lemma Compare(f: Fraction, t: real)
    requires f.den > 0
    ensures Value(f) > t <==> f.num as real > t * f.den as real
    ensures Value(f) < t <==> f.num as real < t * f.den as real
  {
    var d, m := f.num as real, f.den as real;
    DivMul(d, m);
    Scale(Value(f), m, t);
  }

  lemma DivMul(d: real, m: real)
    requires m > 0.0
    ensures (d / m) * m == d
  {
  }

  /** Multiplying by a positive factor keeps the order to a threshold. */
  lemma Scale(q: real, m: real, t: real)
    requires m > 0.0
    ensures q > t <==> q * m > t * m
    ensures q < t <==> q * m < t * m
  {
    if q > t {
      MulStrict(t, q, m);
    } else if q < t {
      MulStrict(q, t, m);
    }
  }

  lemma MulStrict(a: real, b: real, c: real)
    requires a < b && c > 0.0
    ensures a * c < b * c
  {
  }
}
