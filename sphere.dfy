/**
  A sphere as a hittable object: the ray-sphere quadratic, the choice of
  root (near root first, far root as the fallback) and the construction of
  the hit record.
*/
module Spheres {
  import opened Wrappers
  import opened Numeric
  import opened Vectors
  import opened Rays
  import opened MaterialKinds
  import opened Hits

  /** A negative radius is allowed; it turns the outward normal inwards. */
  datatype Sphere = Sphere(center: Point3, radius: real, mat: Material)

  /** `a t^2 + 2 halfB t + c`, zero exactly where the ray meets the sphere. */
  datatype Quadratic = Quadratic(a: real, halfB: real, c: real)

  function Coefficients(sqrt: real -> real, s: Sphere, r: Ray): Quadratic {
    var oc := Sub(r.orig, s.center);
    Quadratic(Sq(Length(sqrt, r.dir)), Dot(oc, r.dir), Sq(Length(sqrt, oc)) - Sq(s.radius))
  }

  function Discriminant(q: Quadratic): real {
    Sq(q.halfB) - q.a * q.c
  }

  /** `(-half_b - sqrtd) / a`. */
  function NearRoot(sqrt: real -> real, q: Quadratic): real {
    Quotient(-q.halfB - sqrt(Discriminant(q)), q.a)
  }

  /** `(-half_b + sqrtd) / a`. */
  function FarRoot(sqrt: real -> real, q: Quadratic): real {
    Quotient(-q.halfB + sqrt(Discriminant(q)), q.a)
  }

  /**
    The root `Sphere::hit` settles on: none for a negative discriminant,
    else the near root if it lies in `[tMin, tMax]`, else the far root if
    that does, else none.
  */
  function SelectRoot(sqrt: real -> real, q: Quadratic, tMin: real, tMax: Bound): (root: Option<real>)
    ensures Discriminant(q) < 0.0 ==> root.None?
    ensures root.Some? ==> InRange(root.value, tMin, tMax)
    ensures root.Some? ==> root.value == NearRoot(sqrt, q) || root.value == FarRoot(sqrt, q)
    ensures Discriminant(q) >= 0.0 && InRange(NearRoot(sqrt, q), tMin, tMax) ==> root == Some(NearRoot(sqrt, q))
    ensures root.None? && Discriminant(q) >= 0.0 ==>
      !InRange(NearRoot(sqrt, q), tMin, tMax) && !InRange(FarRoot(sqrt, q), tMin, tMax)
  {
    if Discriminant(q) < 0.0 then None
    else if InRange(NearRoot(sqrt, q), tMin, tMax) then Some(NearRoot(sqrt, q))
    else if InRange(FarRoot(sqrt, q), tMin, tMax) then Some(FarRoot(sqrt, q))
    else None
  }

  /** `(p - center) / radius`. */
  function OutwardNormal(s: Sphere, p: Point3): Vec3 {
    Div(Sub(p, s.center), s.radius)
  }

  /** The record `Sphere::hit` returns, as a value. */
  function Intersect(sqrt: real -> real, s: Sphere, r: Ray, tMin: real, tMax: Bound): (h: Option<HitData>)
    ensures h.None? <==> SelectRoot(sqrt, Coefficients(sqrt, s, r), tMin, tMax).None?
    ensures h.Some? ==> Some(h.value.t) == SelectRoot(sqrt, Coefficients(sqrt, s, r), tMin, tMax)
    ensures h.Some? ==> InRange(h.value.t, tMin, tMax)
    ensures h.Some? ==> h.value.p == At(r, h.value.t) && h.value.mat == s.mat
    ensures h.Some? ==> (h.value.frontFace <==> Dot(r.dir, OutwardNormal(s, h.value.p)) < 0.0)
    ensures h.Some? ==> Dot(r.dir, h.value.normal) <= 0.0
    ensures h.Some? && h.value.frontFace ==> h.value.normal == OutwardNormal(s, h.value.p)
    ensures h.Some? && !h.value.frontFace ==> h.value.normal == Scale(-1.0, OutwardNormal(s, h.value.p))
  {
    match SelectRoot(sqrt, Coefficients(sqrt, s, r), tMin, tMax)
    case None => None
    case Some(root) =>
      var p := At(r, root);
      Some(WithFaceNormal(HitData(p, Zero(), s.mat, root, false), r, OutwardNormal(s, p)))
  }

  /**
    `Sphere::hit`: reassign `root` to the far root when the near one is out
    of range, build the record with a zero normal, then orient it.
  */
  method Hit(sqrt: real -> real, s: Sphere, r: Ray, tMin: real, tMax: Bound) returns (rec: Option<HitRecord>)
    ensures rec.None? <==> Intersect(sqrt, s, r, tMin, tMax).None?
    ensures rec.Some? ==> rec.value.Data() == Intersect(sqrt, s, r, tMin, tMax).value
  {
    var oc := Sub(r.orig, s.center);
    var a := Sq(Length(sqrt, r.dir));
    var halfB := Dot(oc, r.dir);
    var c := Sq(Length(sqrt, oc)) - Sq(s.radius);
    var discrim := Sq(halfB) - a * c;
    ghost var q := Coefficients(sqrt, s, r);
    assert q == Quadratic(a, halfB, c) && discrim == Discriminant(q);

    if discrim < 0.0 {
      return None;
    }

    var sqrtd := sqrt(discrim);
    var root := Quotient(-halfB - sqrtd, a);
    if root < tMin || Above(root, tMax) {
      root := Quotient(-halfB + sqrtd, a);
      if root < tMin || Above(root, tMax) {
        return None;
      }
    }
    assert SelectRoot(sqrt, q, tMin, tMax) == Some(root);

    var p := At(r, root);
    var h := new HitRecord(p, Zero(), s.mat, root, false);
    var outward := Div(Sub(h.p, s.center), s.radius);
    h.SetFaceNormal(r, outward);
    return Some(h);
  }

  // ---------------------------------------------------------------------
  // Narrowing and widening the interval

  /**
    Shrinking `tMax` to any value at or beyond the root found keeps that
    root: the scan over the world relies on this.
  */
  lemma {:induction false} SelectRootShrink(sqrt: real -> real, q: Quadratic, tMin: real, tMax: Bound, t: real, u: real)
    requires SelectRoot(sqrt, q, tMin, tMax) == Some(t)
    requires t <= u && AtMost(Finite(u), tMax)
    ensures SelectRoot(sqrt, q, tMin, Finite(u)) == Some(t)
  {
    var near := NearRoot(sqrt, q);
    if !InRange(near, tMin, tMax) {
      assert !InRange(near, tMin, Finite(u));
    }
  }

  lemma {:induction false} IntersectShrink(sqrt: real -> real, s: Sphere, r: Ray, tMin: real, tMax: Bound, u: real)
    requires Intersect(sqrt, s, r, tMin, tMax).Some?
    requires Intersect(sqrt, s, r, tMin, tMax).value.t <= u && AtMost(Finite(u), tMax)
    ensures Intersect(sqrt, s, r, tMin, Finite(u)) == Intersect(sqrt, s, r, tMin, tMax)
  {
    var t := Intersect(sqrt, s, r, tMin, tMax).value.t;
    SelectRootShrink(sqrt, Coefficients(sqrt, s, r), tMin, tMax, t, u);
  }

  /** With an exact square root the near root never exceeds the far root. */
  lemma RootsOrdered(sqrt: real -> real, q: Quadratic)
    requires IsSqrt(sqrt)
    requires q.a >= 0.0 && Discriminant(q) >= 0.0
    ensures NearRoot(sqrt, q) <= FarRoot(sqrt, q)
  {
    if q.a > 0.0 {
      QuotientMonotone(-q.halfB - sqrt(Discriminant(q)), -q.halfB + sqrt(Discriminant(q)), q.a);
    }
  }

  /**
    A root found on a narrower interval is also the one found on the wider
    interval (given ordered roots).
  */
  lemma {:induction false} SelectRootGrow(sqrt: real -> real, q: Quadratic, tMin: real, tMax: Bound, u: real, t: real)
    requires NearRoot(sqrt, q) <= FarRoot(sqrt, q)
    requires SelectRoot(sqrt, q, tMin, Finite(u)) == Some(t)
    requires AtMost(Finite(u), tMax)
    ensures SelectRoot(sqrt, q, tMin, tMax) == Some(t)
  {
    var near := NearRoot(sqrt, q);
    if !InRange(near, tMin, Finite(u)) {
      assert near < tMin;
    }
  }

  lemma {:induction false} IntersectGrow(sqrt: real -> real, s: Sphere, r: Ray, tMin: real, tMax: Bound, u: real)
    requires IsSqrt(sqrt)
    requires Intersect(sqrt, s, r, tMin, Finite(u)).Some?
    requires AtMost(Finite(u), tMax)
    ensures Intersect(sqrt, s, r, tMin, tMax) == Intersect(sqrt, s, r, tMin, Finite(u))
  {
    var q := Coefficients(sqrt, s, r);
    var t := Intersect(sqrt, s, r, tMin, Finite(u)).value.t;
    SquareNonNegative(Length(sqrt, r.dir));
    RootsOrdered(sqrt, q);
    SelectRootGrow(sqrt, q, tMin, tMax, u, t);
  }

  // ---------------------------------------------------------------------
  // Geometry: the roots are the points where the ray meets the sphere

  predicate OnSphere(s: Sphere, p: Point3) {
    Dot(Sub(p, s.center), Sub(p, s.center)) == Sq(s.radius)
  }

  function Eval(q: Quadratic, t: real): real {
    q.a * Sq(t) + 2.0 * q.halfB * t + q.c
  }

  /** The point at `t` lies on the sphere exactly when `t` is a root. */
  lemma {:induction false} OnSphereIffRoot(sqrt: real -> real, s: Sphere, r: Ray, t: real)
    requires IsSqrt(sqrt)
    ensures OnSphere(s, At(r, t)) <==> Eval(Coefficients(sqrt, s, r), t) == 0.0
  {
    var oc := Sub(r.orig, s.center);
    var q := Coefficients(sqrt, s, r);
    LengthPositive(sqrt, r.dir);
    LengthPositive(sqrt, oc);
    var offset := Sub(At(r, t), s.center);
    assert offset == Add(oc, Scale(t, r.dir));
    DotOfOffset(oc, r.dir, t);
    EvalByParts(q, Dot(r.dir, r.dir), Dot(oc, r.dir), Dot(oc, oc), Sq(s.radius), t);
    ZeroIffEqual(Dot(offset, offset), Sq(s.radius), Eval(q, t));
  }

  lemma ZeroIffEqual(lhs: real, rhs: real, e: real)
    requires e == lhs - rhs
    ensures lhs == rhs <==> e == 0.0
  {
  }

  lemma EvalByParts(q: Quadratic, dd: real, h: real, oo: real, rr: real, t: real)
    requires q.a == dd && q.halfB == h && q.c == oo - rr
    ensures Eval(q, t) == dd * Sq(t) + 2.0 * h * t + oo - rr
  {
    EqualFactors(q.a, dd, Sq(t));
    EqualFactors(2.0 * q.halfB, 2.0 * h, t);
  }

  lemma DotOfOffset(o: Vec3, d: Vec3, t: real)
    ensures Dot(Add(o, Scale(t, d)), Add(o, Scale(t, d))) == Dot(d, d) * Sq(t) + 2.0 * Dot(o, d) * t + Dot(o, o)
  {
    DotOfAdd(o, Scale(t, d), Add(o, Scale(t, d)));
    DotSymmetric(o, Add(o, Scale(t, d)));
    DotSymmetric(Scale(t, d), Add(o, Scale(t, d)));
    DotOfAdd(o, Scale(t, d), o);
    DotOfAdd(o, Scale(t, d), Scale(t, d));
    DotOfScale(t, d, o);
    DotOfScale(t, o, d);
    DotOfScale(t, d, Scale(t, d));
    DotOfScale(t, d, d);
    DotSymmetric(o, d);
  }

  /**
    With `a > 0` the roots of the quadratic are exactly the near and the far
    root, and there are none when the discriminant is negative.
  */
  lemma {:induction false} RootsOfQuadratic(sqrt: real -> real, q: Quadratic, t: real)
    requires IsSqrt(sqrt)
    requires q.a > 0.0
    ensures Eval(q, t) == 0.0 <==> Discriminant(q) >= 0.0 && (t == NearRoot(sqrt, q) || t == FarRoot(sqrt, q))
  {
    if Eval(q, t) == 0.0 {
      ZerosAreRoots(sqrt, q, t);
    }
    if Discriminant(q) >= 0.0 && (t == NearRoot(sqrt, q) || t == FarRoot(sqrt, q)) {
      RootsAreZeros(sqrt, q, t);
    }
  }

  lemma {:induction false} ZerosAreRoots(sqrt: real -> real, q: Quadratic, t: real)
    requires IsSqrt(sqrt)
    requires q.a > 0.0 && Eval(q, t) == 0.0
    ensures Discriminant(q) >= 0.0 && (t == NearRoot(sqrt, q) || t == FarRoot(sqrt, q))
  {
    var u := q.a * t + q.halfB;
    ZeroOfCompletedSquare(q.a, q.halfB, q.c, t);
    SquareNonNegative(u);
    var sd := sqrt(Discriminant(q));
    assert 0.0 <= sd && Sq(sd) == Sq(u);
    SquaresEqual(u, sd);
    RootFromOffset(q.a, q.halfB, sd, t);
  }

  lemma ZeroOfCompletedSquare(a: real, h: real, c: real, t: real)
    requires a != 0.0 && a * Sq(t) + 2.0 * h * t + c == 0.0
    ensures Sq(a * t + h) == Sq(h) - a * c
  {
    CompletedSquare(a, h, c, t);
  }

  /** `a t + h = -sd` and `a t + h = sd` solve to the near and the far root. */
  lemma RootFromOffset(a: real, h: real, sd: real, t: real)
    requires a != 0.0
    ensures a * t + h == -sd <==> t == Quotient(-h - sd, a)
    ensures a * t + h == sd <==> t == Quotient(-h + sd, a)
  {
    SolveLinear(a, -h - sd, t);
    SolveLinear(a, -h + sd, t);
  }

  lemma {:induction false} RootsAreZeros(sqrt: real -> real, q: Quadratic, t: real)
    requires IsSqrt(sqrt)
    requires q.a > 0.0 && Discriminant(q) >= 0.0
    requires t == NearRoot(sqrt, q) || t == FarRoot(sqrt, q)
    ensures Eval(q, t) == 0.0
  {
    var u := q.a * t + q.halfB;
    var sd := sqrt(Discriminant(q));
    assert Sq(sd) == Discriminant(q);
    RootFromOffset(q.a, q.halfB, sd, t);
    assert u == sd || u == -sd;
    assert Sq(u) == Sq(sd);
    CompletedSquare(q.a, q.halfB, q.c, t);
    ProductZero(q.a, Eval(q, t));
  }

  /**
    With `a > 0`, the root `Sphere::hit` returns is the nearest point of the
    sphere along the ray within `[tMin, tMax]`, and there is none exactly
    when no such point exists.
  */
  lemma {:induction false} IntersectIsNearestSurfacePoint(sqrt: real -> real, s: Sphere, r: Ray, tMin: real, tMax: Bound, t': real)
    requires IsSqrt(sqrt)
    requires r.dir != Zero()
    requires InRange(t', tMin, tMax) && OnSphere(s, At(r, t'))
    ensures Intersect(sqrt, s, r, tMin, tMax).Some?
    ensures Intersect(sqrt, s, r, tMin, tMax).value.t <= t'
  {
    var q := Coefficients(sqrt, s, r);
    LengthPositive(sqrt, r.dir);
    DotSelfNonNegative(r.dir);
    assert q.a > 0.0;
    OnSphereIffRoot(sqrt, s, r, t');
    RootsOfQuadratic(sqrt, q, t');
    RootsOrdered(sqrt, q);
  }

  /** Every hit the sphere reports is a point of the sphere. */
  lemma {:induction false} IntersectIsOnSphere(sqrt: real -> real, s: Sphere, r: Ray, tMin: real, tMax: Bound)
    requires IsSqrt(sqrt)
    requires r.dir != Zero()
    requires Intersect(sqrt, s, r, tMin, tMax).Some?
    ensures OnSphere(s, Intersect(sqrt, s, r, tMin, tMax).value.p)
  {
    var q := Coefficients(sqrt, s, r);
    var t := Intersect(sqrt, s, r, tMin, tMax).value.t;
    LengthPositive(sqrt, r.dir);
    DotSelfNonNegative(r.dir);
    RootsOfQuadratic(sqrt, q, t);
    OnSphereIffRoot(sqrt, s, r, t);
  }

  /** For a sphere of non-zero radius the stored normal has length 1. */
  lemma {:induction false} IntersectNormalIsUnit(sqrt: real -> real, s: Sphere, r: Ray, tMin: real, tMax: Bound)
    requires IsSqrt(sqrt)
    requires r.dir != Zero() && s.radius != 0.0
    requires Intersect(sqrt, s, r, tMin, tMax).Some?
    ensures Dot(Intersect(sqrt, s, r, tMin, tMax).value.normal, Intersect(sqrt, s, r, tMin, tMax).value.normal) == 1.0
  {
    var h := Intersect(sqrt, s, r, tMin, tMax).value;
    IntersectIsOnSphere(sqrt, s, r, tMin, tMax);
    DivByNormIsUnit(Sub(h.p, s.center), s.radius);
    var n := OutwardNormal(s, h.p);
    assert Dot(Scale(-1.0, n), Scale(-1.0, n)) == Dot(n, n);
  }

  /**
    A ray with a zero direction never hits when `t_min` is positive: both
    roots are 0, since division by zero yields 0 here (the source gets NaN).
  */
  lemma ZeroDirectionMisses(sqrt: real -> real, s: Sphere, r: Ray, tMin: real, tMax: Bound)
    requires IsSqrt(sqrt)
    requires r.dir == Zero() && 0.0 < tMin
    ensures Intersect(sqrt, s, r, tMin, tMax).None?
  {
    SqrtZero(sqrt, 0.0);
    ZeroDirectionIsFlat(sqrt, s, r);
    FlatQuadraticMisses(sqrt, Coefficients(sqrt, s, r), tMin, tMax);
  }

  lemma ZeroDirectionIsFlat(sqrt: real -> real, s: Sphere, r: Ray)
    requires sqrt(0.0) == 0.0 && r.dir == Zero()
    ensures Coefficients(sqrt, s, r).a == 0.0
  {
    assert Dot(r.dir, r.dir) == 0.0;
  }

  /** With `a = 0` both roots divide by zero, which yields 0 here, below a positive `t_min`. */
  lemma FlatQuadraticMisses(sqrt: real -> real, q: Quadratic, tMin: real, tMax: Bound)
    requires q.a == 0.0 && 0.0 < tMin
    ensures SelectRoot(sqrt, q, tMin, tMax).None?
  {
  }
}
