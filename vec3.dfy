/**
  `Vec3` (also used as `Point3` and `Color`): three real components with
  component-wise arithmetic, dot and cross products, reflection, the
  `near_zero` test, the gamma-corrected 8-bit colour quantisation and the
  rejection samplers, whose random draws are given as parameters.
*/
module Vectors {
  import opened Wrappers
  import opened Numeric

  datatype Vec3 = Vec3(x: real, y: real, z: real)

  type Point3 = Vec3
  type Color = Vec3

  function Zero(): Vec3 {
    Vec3(0.0, 0.0, 0.0)
  }

  /** `v[i]`; an index past 2 panics in the source. */
  function Component(v: Vec3, i: nat): real
    requires i < 3
  {
    if i == 0 then v.x else if i == 1 then v.y else v.z
  }

  function Add(a: Vec3, b: Vec3): Vec3 {
    Vec3(a.x + b.x, a.y + b.y, a.z + b.z)
  }

  function Sub(a: Vec3, b: Vec3): Vec3 {
    Vec3(a.x - b.x, a.y - b.y, a.z - b.z)
  }

  /** `Vec3 * Vec3`: the component-wise (Hadamard) product, used on colours. */
  function Mul(a: Vec3, b: Vec3): Vec3 {
    Vec3(a.x * b.x, a.y * b.y, a.z * b.z)
  }

  /** `f64 * Vec3`. */
  function Scale(k: real, v: Vec3): Vec3 {
    Vec3(k * v.x, k * v.y, k * v.z)
  }

  /** `Vec3 * f64`. */
  function MulScalar(v: Vec3, k: real): Vec3 {
    Vec3(v.x * k, v.y * k, v.z * k)
  }

  /** `Vec3 / f64`, component by component (see `Quotient` for a zero divisor). */
  function Div(v: Vec3, k: real): Vec3 {
    Vec3(Quotient(v.x, k), Quotient(v.y, k), Quotient(v.z, k))
  }

  function Dot(a: Vec3, b: Vec3): real {
    a.x * b.x + a.y * b.y + a.z * b.z
  }

  function Cross(a: Vec3, b: Vec3): Vec3 {
    Vec3(a.y * b.z - a.z * b.y,
         a.z * b.x - a.x * b.z,
         a.x * b.y - a.y * b.x)
  }

  function Length(sqrt: real -> real, v: Vec3): real {
    sqrt(Dot(v, v))
  }

  /** `v / v.length()`; the zero vector stays zero (NaN in the source). */
  function Normalized(sqrt: real -> real, v: Vec3): Vec3 {
    Div(v, Length(sqrt, v))
  }

  /** `v - 2 (v . n) n`: mirror `v` in the plane whose normal is `n`. */
  function Reflect(v: Vec3, n: Vec3): Vec3 {
    Sub(v, Scale(2.0 * Dot(v, n), n))
  }

  /**
    Snell's law split into a part perpendicular to `n` and a part along it.
    No property of it is claimed by this model.
  */
  function Refract(sqrt: real -> real, v: Vec3, n: Vec3, etaiOverEtat: real): Vec3 {
    var cosTheta := Min(Dot(Scale(-1.0, v), n), 1.0);
    var perp := Scale(etaiOverEtat, Add(v, Scale(cosTheta, n)));
    var parallel := Scale(-sqrt(Abs(1.0 - Sq(Length(sqrt, perp)))), n);
    Add(perp, parallel)
  }

  const NearZeroEpsilon: real := 0.00000001

  /** Every component is within `1e-8` of zero. */
  predicate NearZero(v: Vec3) {
    Abs(v.x) < NearZeroEpsilon && Abs(v.y) < NearZeroEpsilon && Abs(v.z) < NearZeroEpsilon
  }

  /** The three integers `format_color` prints for one pixel. */
  datatype Rgb = Rgb(r: nat, g: nat, b: nat)

  /**
    One channel of `format_color`: average the summed samples, gamma-correct
    with a square root, clamp to `[0, 0.999]`, scale by 256 and truncate.
    With no samples the division gives +inf (clamped to 0.999) for a
    positive sum and NaN otherwise; a negative average has a NaN square
    root; `as u64` turns NaN into 0.
  */
  function Channel(sqrt: real -> real, sum: real, samples: nat): (c: nat)
    ensures c <= 255
  {
    if samples == 0 then
      if sum > 0.0 then 255 else 0
    else
      var q := sum / samples as real;
      if q < 0.0 then 0
      else
        var scaled := 256.0 * Clamp(sqrt(q), 0.0, 0.999);
        assert 0.0 <= scaled < 256.0;
        scaled.Floor as nat
  }

  function FormatColor(sqrt: real -> real, sum: Color, samples: nat): (rgb: Rgb)
    ensures rgb.r <= 255 && rgb.g <= 255 && rgb.b <= 255
  {
    Rgb(Channel(sqrt, sum.x, samples), Channel(sqrt, sum.y, samples), Channel(sqrt, sum.z, samples))
  }

  /**
    `random_in_hemisphere`, given the point `random_in_unit_sphere` drew:
    keep it when it lies on the side `normal` points to, else flip it.
  */
  function InHemisphere(sample: Vec3, normal: Vec3): (v: Vec3)
    ensures Dot(v, normal) >= 0.0
    ensures Dot(sample, normal) > 0.0 ==> v == sample
    ensures Dot(sample, normal) <= 0.0 ==> v == Scale(-1.0, sample)
    ensures Dot(v, v) == Dot(sample, sample)
  {
    if Dot(sample, normal) > 0.0 then sample else Scale(-1.0, sample)
  }

  /**
    `random_in_unit_sphere`: draw candidates until one has length below 1.
    The source draws for ever; here the draws are a finite sequence and
    `None` means every one of them was rejected. `tries` is the index of
    the accepted candidate, which is also the number of rejected ones.
  */
  method RandomInUnitSphere(sqrt: real -> real, candidates: seq<Vec3>) returns (r: Option<Vec3>, tries: nat)
    ensures tries <= |candidates|
    ensures forall j :: 0 <= j < tries ==> Length(sqrt, candidates[j]) >= 1.0
    ensures r.None? ==> tries == |candidates|
    ensures r.Some? ==> tries < |candidates| && r.value == candidates[tries]
    ensures r.Some? ==> Length(sqrt, r.value) < 1.0
  {
    tries := 0;
    while tries < |candidates|
      invariant tries <= |candidates|
      invariant forall j :: 0 <= j < tries ==> Length(sqrt, candidates[j]) >= 1.0
    {
      var v := candidates[tries];
      if Length(sqrt, v) < 1.0 {
        return Some(v), tries;
      }
      tries := tries + 1;
    }
    return None, tries;
  }

  /**
    `random_in_unit_disk`: draw `(x, y)` pairs until `(x, y, 0)` has length
    below 1; draws as for `RandomInUnitSphere`.
  */
  method RandomInUnitDisk(sqrt: real -> real, candidates: seq<(real, real)>) returns (r: Option<Vec3>, tries: nat)
    ensures tries <= |candidates|
    ensures forall j :: 0 <= j < tries ==> Length(sqrt, Vec3(candidates[j].0, candidates[j].1, 0.0)) >= 1.0
    ensures r.None? ==> tries == |candidates|
    ensures r.Some? ==> tries < |candidates| && r.value == Vec3(candidates[tries].0, candidates[tries].1, 0.0)
    ensures r.Some? ==> r.value.z == 0.0 && Length(sqrt, r.value) < 1.0
  {
    tries := 0;
    while tries < |candidates|
      invariant tries <= |candidates|
      invariant forall j :: 0 <= j < tries ==> Length(sqrt, Vec3(candidates[j].0, candidates[j].1, 0.0)) >= 1.0
    {
      var p := Vec3(candidates[tries].0, candidates[tries].1, 0.0);
      if Length(sqrt, p) < 1.0 {
        return Some(p), tries;
      }
      tries := tries + 1;
    }
    return None, tries;
  }

  /**
    A `Vec3` place written through `&mut`: the compound assignments replace
    the whole value, `IndexMut` overwrites one component.
  */
  class Vec3Cell {
    var value: Vec3

    constructor (v: Vec3)
      ensures value == v
    {
      value := v;
    }

    method AddAssign(other: Vec3)
      modifies this
      ensures value == Add(old(value), other)
    {
      value := Vec3(value.x + other.x, value.y + other.y, value.z + other.z);
    }

    method SubAssign(other: Vec3)
      modifies this
      ensures value == Sub(old(value), other)
    {
      value := Vec3(value.x - other.x, value.y - other.y, value.z - other.z);
    }

    method MulAssign(k: real)
      modifies this
      ensures value == MulScalar(old(value), k)
    {
      value := Vec3(value.x * k, value.y * k, value.z * k);
    }

    method DivAssign(k: real)
      modifies this
      ensures value == Div(old(value), k)
    {
      value := Vec3(Quotient(value.x, k), Quotient(value.y, k), Quotient(value.z, k));
    }

    method SetComponent(i: nat, c: real)
      requires i < 3
      modifies this
      ensures Component(value, i) == c
      ensures forall j :: 0 <= j < 3 && j != i ==> Component(value, j) == Component(old(value), j)
    {
      if i == 0 {
        value := value.(x := c);
      } else if i == 1 {
        value := value.(y := c);
      } else {
        value := value.(z := c);
      }
    }
  }

  // ---------------------------------------------------------------------
  // Algebra of the operators

  lemma SubUndoesAdd(a: Vec3, b: Vec3)
    ensures Sub(Add(a, b), b) == a
    ensures Add(Sub(a, b), b) == a
  {
  }

  /** The two scalar products `f64 * Vec3` and `Vec3 * f64` agree. */
  lemma ScalarProductsAgree(v: Vec3, k: real)
    ensures MulScalar(v, k) == Scale(k, v)
  {
  }

  lemma DivUndoesScale(v: Vec3, k: real)
    requires k != 0.0
    ensures Div(Scale(k, v), k) == v
    ensures Scale(k, Div(v, k)) == v
  {
    assert k * v.x / k == v.x;
    assert k * v.y / k == v.y;
    assert k * v.z / k == v.z;
  }

  lemma DotSymmetric(a: Vec3, b: Vec3)
    ensures Dot(a, b) == Dot(b, a)
  {
  }

  lemma DotOfSub(a: Vec3, b: Vec3, c: Vec3)
    ensures Dot(Sub(a, b), c) == Dot(a, c) - Dot(b, c)
  {
  }

  lemma DotOfAdd(a: Vec3, b: Vec3, c: Vec3)
    ensures Dot(Add(a, b), c) == Dot(a, c) + Dot(b, c)
  {
  }

  lemma DotOfScale(k: real, a: Vec3, b: Vec3)
    ensures Dot(Scale(k, a), b) == k * Dot(a, b)
    ensures Dot(a, Scale(k, b)) == k * Dot(a, b)
  {
  }

  lemma DotSelfIsSumOfSquares(v: Vec3)
    ensures Dot(v, v) == Sq(v.x) + Sq(v.y) + Sq(v.z)
  {
  }

  /** `v . v` is never negative, and is zero only for the zero vector. */
  lemma DotSelfNonNegative(v: Vec3)
    ensures Dot(v, v) >= 0.0
    ensures Dot(v, v) == 0.0 <==> v == Zero()
  {
    DotSelfIsSumOfSquares(v);
    SquareNonNegative(v.x);
    SquareNonNegative(v.y);
    SquareNonNegative(v.z);
    if v.x != 0.0 {
      SquarePositive(v.x);
    } else if v.y != 0.0 {
      SquarePositive(v.y);
    } else if v.z != 0.0 {
      SquarePositive(v.z);
    }
  }

  /** The cross product is orthogonal to both of its arguments. */
  lemma CrossOrthogonal(a: Vec3, b: Vec3)
    ensures Dot(Cross(a, b), a) == 0.0
    ensures Dot(Cross(a, b), b) == 0.0
  {
  }

  /** Lagrange's identity, from which `|a . b| <= |a| |b|` follows. */
  lemma CrossLagrange(a: Vec3, b: Vec3)
    ensures Dot(a, a) * Dot(b, b) - Sq(Dot(a, b)) == Dot(Cross(a, b), Cross(a, b))
  {
  }

  // ---------------------------------------------------------------------
  // Reflection about a unit normal

  lemma {:induction false} ReflectFlipsNormalComponent(v: Vec3, n: Vec3)
    requires Dot(n, n) == 1.0
    ensures Dot(Reflect(v, n), n) == -Dot(v, n)
  {
    var k := 2.0 * Dot(v, n);
    DotOfSub(v, Scale(k, n), n);
    DotOfScale(k, n, n);
  }

  lemma {:induction false} ReflectInvolutive(v: Vec3, n: Vec3)
    requires Dot(n, n) == 1.0
    ensures Reflect(Reflect(v, n), n) == v
  {
    ReflectFlipsNormalComponent(v, n);
    var d := Dot(v, n);
    var r := Reflect(v, n);
    assert Reflect(r, n) == Sub(r, Scale(-2.0 * d, n));
  }

  lemma {:induction false} ReflectPreservesLength(v: Vec3, n: Vec3)
    requires Dot(n, n) == 1.0
    ensures Dot(Reflect(v, n), Reflect(v, n)) == Dot(v, v)
  {
    var d := Dot(v, n);
    var k := 2.0 * d;
    var r := Reflect(v, n);
    ReflectFlipsNormalComponent(v, n);
    DotOfSub(v, Scale(k, n), r);
    DotOfScale(k, n, r);
    DotSymmetric(n, r);
    DotOfSub(v, Scale(k, n), v);
    DotOfScale(k, n, v);
    DotSymmetric(n, v);
  }

  // ---------------------------------------------------------------------
  // Length and normalisation with an exact square root

  /** `v.length() < 1.0`, the samplers' acceptance test, is `v . v < 1`. */
  lemma LengthBelowOne(sqrt: real -> real, v: Vec3)
    requires IsSqrt(sqrt)
    ensures Length(sqrt, v) >= 0.0
    ensures Length(sqrt, v) < 1.0 <==> Dot(v, v) < 1.0
  {
    DotSelfNonNegative(v);
    SqrtBelowOne(sqrt, Dot(v, v));
  }

  lemma LengthPositive(sqrt: real -> real, v: Vec3)
    requires IsSqrt(sqrt)
    ensures Length(sqrt, v) >= 0.0
    ensures Sq(Length(sqrt, v)) == Dot(v, v)
    ensures Length(sqrt, v) == 0.0 <==> v == Zero()
  {
    DotSelfNonNegative(v);
    var d := Dot(v, v);
    assert 0.0 <= sqrt(d) && Sq(sqrt(d)) == d;
    SqrtZero(sqrt, d);
  }

  /** Normalising a vector of positive length scales it by the inverse length. */
  lemma NormalizedIsScale(sqrt: real -> real, v: Vec3)
    requires IsSqrt(sqrt)
    requires v != Zero()
    ensures Length(sqrt, v) > 0.0
    ensures Normalized(sqrt, v) == Scale(1.0 / Length(sqrt, v), v)
  {
    var l := Length(sqrt, v);
    LengthPositive(sqrt, v);
    DivIsScale(v.x, l);
    DivIsScale(v.y, l);
    DivIsScale(v.z, l);
  }

  lemma DivIsScale(a: real, l: real)
    requires l != 0.0
    ensures a / l == (1.0 / l) * a
  {
  }

  /** Normalising divides by a non-negative length, so it keeps every sign. */
  lemma {:induction false} DotNormalized(sqrt: real -> real, v: Vec3, n: Vec3)
    requires IsSqrt(sqrt)
    ensures Dot(v, n) > 0.0 ==> Dot(Normalized(sqrt, v), n) > 0.0
    ensures Dot(v, n) <= 0.0 ==> Dot(Normalized(sqrt, v), n) <= 0.0
  {
    if v == Zero() {
      assert Normalized(sqrt, v) == Zero();
    } else {
      NormalizedIsScale(sqrt, v);
      var k := 1.0 / Length(sqrt, v);
      assert k > 0.0;
      DotOfScale(k, v, n);
      var d := Dot(v, n);
      if d > 0.0 {
        assert k * d > 0.0;
      } else {
        assert k * d <= 0.0;
      }
    }
  }

  /** A non-zero vector normalises to a unit vector. */
  lemma {:induction false} NormalizedIsUnit(sqrt: real -> real, v: Vec3)
    requires IsSqrt(sqrt)
    requires v != Zero()
    ensures Dot(Normalized(sqrt, v), Normalized(sqrt, v)) == 1.0
  {
    LengthPositive(sqrt, v);
    DivByNormIsUnit(v, Length(sqrt, v));
  }

  /** Dividing `w` by any `l` with `l^2 = w . w` (of either sign) gives a unit vector. */
  lemma {:induction false} DivByNormIsUnit(w: Vec3, l: real)
    requires l != 0.0
    requires Sq(l) == Dot(w, w)
    ensures Dot(Div(w, l), Div(w, l)) == 1.0
  {
    var k := 1.0 / l;
    DivIsScale(w.x, l);
    DivIsScale(w.y, l);
    DivIsScale(w.z, l);
    assert Div(w, l) == Scale(k, w);
    DotOfScale(k, w, Scale(k, w));
    DotOfScale(k, w, w);
    assert Dot(Scale(k, w), Scale(k, w)) == k * (k * Sq(l));
    InverseSquare(l);
  }

  /** Every component of a normalised vector lies in `[-1, 1]`. */
  lemma {:induction false} NormalizedComponentsBounded(sqrt: real -> real, v: Vec3)
    requires IsSqrt(sqrt)
    ensures -1.0 <= Normalized(sqrt, v).x <= 1.0
    ensures -1.0 <= Normalized(sqrt, v).y <= 1.0
    ensures -1.0 <= Normalized(sqrt, v).z <= 1.0
  {
    LengthPositive(sqrt, v);
    DivByLengthBounded(v, Length(sqrt, v));
  }

  lemma DivByLengthBounded(v: Vec3, l: real)
    requires l >= 0.0
    requires Sq(l) == Dot(v, v)
    ensures -1.0 <= Div(v, l).x <= 1.0
    ensures -1.0 <= Div(v, l).y <= 1.0
    ensures -1.0 <= Div(v, l).z <= 1.0
  {
    if l > 0.0 {
      DotSelfIsSumOfSquares(v);
      ComponentBounded(v.x, v.y, v.z, l);
      ComponentBounded(v.y, v.z, v.x, l);
      ComponentBounded(v.z, v.x, v.y, l);
    }
  }

  lemma ComponentBounded(a: real, b: real, c: real, l: real)
    requires l > 0.0
    requires Sq(l) == Sq(a) + Sq(b) + Sq(c)
    ensures -1.0 <= Quotient(a, l) <= 1.0
  {
    SquareNonNegative(b);
    SquareNonNegative(c);
    QuotientOfSmallerSquare(a, l);
  }

  /** `|a| <= l` follows from `a^2 <= l^2`, and then `a / l` lies in `[-1, 1]`. */
  lemma QuotientOfSmallerSquare(a: real, l: real)
    requires l > 0.0
    requires Sq(a) <= Sq(l)
    ensures -1.0 <= Quotient(a, l) <= 1.0
  {
    if a > l {
      SquareMonotone(l, a);
    } else if -a > l {
      SquareMonotone(l, -a);
    }
    var q := a / l;
    assert q * l == a;
    FactorSign(q - 1.0, l);
    FactorSign(-1.0 - q, l);
  }

  lemma FactorSign(x: real, l: real)
    requires l > 0.0
    requires x * l <= 0.0
    ensures x <= 0.0
  {
  }

  /** `near_zero` is the test "every component has absolute value below `1e-8`", over the indices. */
  lemma NearZeroIffAllComponentsSmall(v: Vec3)
    ensures NearZero(v) <==> forall i :: 0 <= i < 3 ==> Abs(Component(v, i)) < 0.00000001
  {
    if !NearZero(v) {
      if Abs(v.x) >= NearZeroEpsilon {
        assert Component(v, 0) == v.x;
      } else if Abs(v.y) >= NearZeroEpsilon {
        assert Component(v, 1) == v.y;
      } else {
        assert Component(v, 2) == v.z;
      }
    }
  }

  /** The zero vector is near zero, so a vector that is not near zero is not the zero vector. */
  lemma NotNearZeroIsNonZero(v: Vec3)
    ensures !NearZero(v) ==> v != Zero()
    ensures NearZero(Zero())
  {
  }

  // ---------------------------------------------------------------------
  // format_color

  /**
    With at least one sample, a channel is monotone in the summed light.
  */
  lemma ChannelMonotone(sqrt: real -> real, s1: real, s2: real, samples: nat)
    requires IsSqrt(sqrt)
    requires samples > 0
    requires s1 <= s2
    ensures Channel(sqrt, s1, samples) <= Channel(sqrt, s2, samples)
  {
    var n := samples as real;
    var q1, q2 := s1 / n, s2 / n;
    assert q1 <= q2;
    if q1 >= 0.0 {
      SqrtMonotone(sqrt, q1, q2);
    }
  }

  /**
    With at least one sample, a channel saturates at 255 exactly when the
    average reaches `(255/256)^2`, because of the clamp at 0.999 and the
    truncation.
  */
  lemma ChannelSaturates(sqrt: real -> real, sum: real, samples: nat)
    requires IsSqrt(sqrt)
    requires samples > 0
    ensures Channel(sqrt, sum, samples) == 255 <==> sum / samples as real >= (255.0 / 256.0) * (255.0 / 256.0)
  {
    var q := sum / samples as real;
    var t := 255.0 / 256.0;
    SqrtOfSquare(sqrt, t);
    if q >= t * t {
      SqrtMonotone(sqrt, t * t, q);
      assert 256.0 * Clamp(sqrt(q), 0.0, 0.999) >= 255.0;
    } else if q >= 0.0 {
      SqrtMonotone(sqrt, q, t * t);
      assert 256.0 * Clamp(sqrt(q), 0.0, 0.999) < 255.0;
    }
  }

  /** A channel whose samples sum to zero prints as 0. */
  lemma ChannelOfBlack(sqrt: real -> real, samples: nat)
    requires IsSqrt(sqrt)
    ensures Channel(sqrt, 0.0, samples) == 0
  {
    if samples > 0 {
      SqrtOfSquare(sqrt, 0.0);
      assert 0.0 / samples as real == 0.0;
    }
  }
}
