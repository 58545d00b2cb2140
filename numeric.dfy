/** Small helpers shared by every module. */
module Wrappers {
  datatype Option<+T> = None | Some(value: T)
}

/**
  The renderer computes with `f64`; this model computes with exact reals.
  Rounding is not modelled. Where IEEE-754 leaves the reals (division by
  zero, the square root of a negative number) the helpers below say what
  the model does instead.
*/
module Numeric {

  /** An upper bound on the ray parameter: a finite value or `f64::INFINITY`. */
  datatype Bound = Finite(value: real) | Unbounded

  /** `x > t_max` for a bound that may be infinite: nothing exceeds infinity. */
  predicate Above(x: real, hi: Bound) {
    hi.Finite? && x > hi.value
  }

  /** `!(x < t_min || x > t_max)`: the inclusive interval test used on roots. */
  predicate InRange(x: real, lo: real, hi: Bound) {
    !(x < lo || Above(x, hi))
  }

  /** `a <= b` on bounds. */
  predicate AtMost(a: Bound, b: Bound) {
    b.Unbounded? || (a.Finite? && a.value <= b.value)
  }

  /**
    `x / y` on `f64`. A zero divisor gives an infinity or NaN in IEEE-754,
    which no real represents; the model yields 0 there.
  */
  function Quotient(x: real, y: real): real {
    if y == 0.0 then 0.0 else x / y
  }

  /** `x.powi(2)` and `x.powf(2.0)`. */
  function Sq(x: real): real {
    x * x
  }

  function Abs(x: real): real {
    if x < 0.0 then -x else x
  }

  /** `f64::min`. */
  function Min(a: real, b: real): real {
    if a <= b then a else b
  }

  /** `f64::clamp`: first raise to `lo`, then lower to `hi`. */
  function Clamp(x: real, lo: real, hi: real): (c: real)
    requires lo <= hi
    ensures lo <= c <= hi
    ensures lo <= x <= hi ==> c == x
  {
    if x < lo then lo else if x > hi then hi else x
  }

  /**
    `f64::sqrt` is a parameter of the model: any function that agrees with
    the exact square root on the non-negative reals. On negative arguments
    (where `f64::sqrt` returns NaN) it is left unspecified.
  */
  ghost predicate IsSqrt(sqrt: real -> real) {
    forall x :: 0.0 <= x ==> 0.0 <= sqrt(x) && Sq(sqrt(x)) == x
  }

  lemma SquareNonNegative(a: real)
    ensures Sq(a) >= 0.0
  {
  }

  lemma SquarePositive(a: real)
    requires a != 0.0
    ensures Sq(a) > 0.0
  {
    if a > 0.0 {
      SquareOfPositive(a, a);
    } else {
      SquareOfPositive(-a, -a);
      assert Sq(a) == Sq(-a);
    }
  }

  /** The square of a positive number is positive (`b` names the same value). */
  lemma SquareOfPositive(a: real, b: real)
    requires 0.0 < a && a == b
    ensures Sq(a) > 0.0
  {
    SquareMonotone(0.0, a);
  }

  lemma SquareMonotone(a: real, b: real)
    requires 0.0 <= a < b
    ensures Sq(a) < Sq(b)
  {
    var d := b - a;
    assert b * b == a * a + d * (a + b);
    assert d * (a + b) > 0.0;
  }

  lemma SqrtOfSquare(sqrt: real -> real, x: real)
    requires IsSqrt(sqrt)
    requires 0.0 <= x
    ensures sqrt(Sq(x)) == x
  {
    SquareNonNegative(x);
    var s := sqrt(Sq(x));
    assert 0.0 <= s && Sq(s) == Sq(x);
    if s > x {
      SquareMonotone(x, s);
    } else if s < x {
      SquareMonotone(s, x);
    }
  }

  lemma SqrtMonotone(sqrt: real -> real, x: real, y: real)
    requires IsSqrt(sqrt)
    requires 0.0 <= x <= y
    ensures sqrt(x) <= sqrt(y)
  {
    var sx, sy := sqrt(x), sqrt(y);
    assert 0.0 <= sx && Sq(sx) == x;
    assert 0.0 <= sy && Sq(sy) == y;
    if sx > sy {
      SquareMonotone(sy, sx);
    }
  }

  /** `x.sqrt() < 1.0` exactly when `x < 1.0`. */
  lemma SqrtBelowOne(sqrt: real -> real, x: real)
    requires IsSqrt(sqrt)
    requires 0.0 <= x
    ensures sqrt(x) < 1.0 <==> x < 1.0
    ensures x <= 1.0 ==> sqrt(x) <= 1.0
  {
    SqrtOfSquare(sqrt, 1.0);
    if x < 1.0 {
      SqrtMonotone(sqrt, x, 1.0);
      assert sqrt(x) != 1.0;
    } else {
      SqrtMonotone(sqrt, 1.0, x);
    }
    if x <= 1.0 {
      SqrtMonotone(sqrt, x, 1.0);
    }
  }

  /** The square root of zero is zero, and only zero has it. */
  lemma SqrtZero(sqrt: real -> real, x: real)
    requires IsSqrt(sqrt)
    requires 0.0 <= x
    ensures sqrt(x) == 0.0 <==> x == 0.0
  {
    SqrtOfSquare(sqrt, 0.0);
    if sqrt(x) != 0.0 {
      SquarePositive(sqrt(x));
    }
  }

  /** `(1/l) * (1/l) * l^2 = 1` for any non-zero `l`. */
  lemma InverseSquare(l: real)
    requires l != 0.0
    ensures (1.0 / l) * ((1.0 / l) * Sq(l)) == 1.0
  {
    var k := 1.0 / l;
    assert k * l == 1.0;
    assert k * (k * (l * l)) == (k * l) * (k * l);
  }

  lemma QuotientMonotone(x: real, y: real, a: real)
    requires a > 0.0 && x <= y
    ensures Quotient(x, a) <= Quotient(y, a)
  {
    var qx, qy := x / a, y / a;
    assert qx * a == x && qy * a == y;
  }

  /** `t = x / a` is the one solution of `a t = x`. */
  lemma SolveLinear(a: real, x: real, t: real)
    requires a != 0.0
    ensures t == Quotient(x, a) <==> a * t == x
  {
  }

  lemma ProductZero(a: real, e: real)
    requires a != 0.0 && a * e == 0.0
    ensures e == 0.0
  {
  }

  /** Completing the square: `a (a t^2 + 2 h t + c) = (a t + h)^2 - (h^2 - a c)`. */
  lemma CompletedSquare(a: real, h: real, c: real, t: real)
    ensures a * (a * Sq(t) + 2.0 * h * t + c) == Sq(a * t + h) - (Sq(h) - a * c)
  {
  }

  /** Two numbers with the same square are equal up to sign. */
  lemma SquaresEqual(u: real, s: real)
    requires s >= 0.0 && Sq(u) == Sq(s)
    ensures u == s || u == -s
  {
    if u >= 0.0 {
      if u < s {
        SquareMonotone(u, s);
      } else if u > s {
        SquareMonotone(s, u);
      }
    } else {
      if -u < s {
        SquareMonotone(-u, s);
      } else if -u > s {
        SquareMonotone(s, -u);
      }
    }
  }

  lemma EqualFactors(x: real, z: real, y: real)
    requires x == z
    ensures x * y == z * y
  {
  }

  lemma ProductNonNegative(p: real, q: real)
    requires 0.0 <= p && 0.0 <= q
    ensures 0.0 <= p * q
  {
  }

  /** The product of two numbers in `[0, 1]` lies in `[0, 1]`. */
  lemma FractionProduct(p: real, q: real)
    requires 0.0 <= p <= 1.0 && 0.0 <= q <= 1.0
    ensures 0.0 <= p * q <= 1.0
  {
    ProductNonNegative(p, q);
    ProductNonNegative(p, 1.0 - q);
    assert p - p * q == p * (1.0 - q);
  }

  /** Multiplying by a non-negative factor keeps the order. */
  lemma ScaleMonotone(c: real, x: real, y: real)
    requires c >= 0.0 && x <= y
    ensures c * x <= c * y
  {
    assert c * y - c * x == c * (y - x);
  }
}
