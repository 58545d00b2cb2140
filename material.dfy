/**
  How each material answers a hit: the scattered ray and its attenuation,
  or absorption. The random draws a call consumes are given as a `Draw`.
*/
module Materials {
  import opened Wrappers
  import opened Numeric
  import opened Vectors
  import opened Rays
  import opened MaterialKinds
  import opened Hits

  /**
    The randomness one scatter call uses: the point `random_in_unit_sphere`
    returned, and the uniform number in `[0, 1)` the dielectric draws.
  */
  datatype Draw = Draw(inBall: Vec3, uniform: real)

  datatype Scattered = Scattered(attenuation: Color, ray: Ray)

  // ---------------------------------------------------------------------
  // Lambertian

  /**
    The diffuse direction: the normal plus the normalised sample, unless
    that sum is near zero, in which case the normal itself.
  */
  function LambertianDirection(sqrt: real -> real, normal: Vec3, sample: Vec3): (d: Vec3)
    ensures NearZero(Add(normal, Normalized(sqrt, sample))) ==> d == normal
    ensures !NearZero(Add(normal, Normalized(sqrt, sample))) ==> d == Add(normal, Normalized(sqrt, sample))
    ensures !NearZero(normal) ==> !NearZero(d)
  {
    var d := Add(normal, Normalized(sqrt, sample));
    if NearZero(d) then normal else d
  }

  function ScatterLambertian(sqrt: real -> real, albedo: Color, rec: HitData, sample: Vec3): (s: Option<Scattered>)
    ensures s.Some?
    ensures s.value.attenuation == albedo
    ensures s.value.ray.orig == rec.p
    ensures s.value.ray.dir == LambertianDirection(sqrt, rec.normal, sample)
  {
    Some(Scattered(albedo, Ray(rec.p, LambertianDirection(sqrt, rec.normal, sample))))
  }

  /** `Lambertian::scatter`, with `scatter_dir` reassigned in the near-zero case. */
  method ComputeLambertianScatter(sqrt: real -> real, albedo: Color, rec: HitData, sample: Vec3)
    returns (s: Option<Scattered>)
    ensures s == ScatterLambertian(sqrt, albedo, rec, sample)
    ensures s.Some? && s.value.attenuation == albedo && s.value.ray.orig == rec.p
  {
    var scatterDir := Add(rec.normal, Normalized(sqrt, sample));
    if NearZero(scatterDir) {
      scatterDir := rec.normal;
    }
    var scattered := Ray(rec.p, scatterDir);
    return Some(Scattered(albedo, scattered));
  }

  // ---------------------------------------------------------------------
  // Metal

  /** The mirror direction, normalised, perturbed by `fuzz` times the sample. */
  function MetalDirection(sqrt: real -> real, fuzz: real, v: Vec3, normal: Vec3, sample: Vec3): Vec3 {
    Add(Normalized(sqrt, Reflect(v, normal)), Scale(fuzz, sample))
  }

  /** `Metal::scatter`: absorb unless the scattered ray leaves on the normal's side. */
  function ScatterMetal(sqrt: real -> real, albedo: Color, fuzz: real, r: Ray, rec: HitData, sample: Vec3): (s: Option<Scattered>)
    ensures s.None? <==> Dot(MetalDirection(sqrt, fuzz, r.dir, rec.normal, sample), rec.normal) <= 0.0
    ensures s.Some? ==> s.value.attenuation == albedo && s.value.ray.orig == rec.p
    ensures s.Some? ==> s.value.ray.dir == MetalDirection(sqrt, fuzz, r.dir, rec.normal, sample)
    ensures s.Some? ==> Dot(s.value.ray.dir, rec.normal) > 0.0
  {
    var scattered := Ray(rec.p, MetalDirection(sqrt, fuzz, r.dir, rec.normal, sample));
    if Dot(scattered.dir, rec.normal) > 0.0 then Some(Scattered(albedo, scattered)) else None
  }

  /**
    A perfect mirror (no fuzz) never absorbs a ray that arrives against a
    unit normal: the reflection leaves on the normal's side.
  */
  lemma {:induction false} MirrorNeverAbsorbs(sqrt: real -> real, albedo: Color, r: Ray, rec: HitData, sample: Vec3)
    requires IsSqrt(sqrt)
    requires Dot(rec.normal, rec.normal) == 1.0
    requires Dot(r.dir, rec.normal) < 0.0
    ensures ScatterMetal(sqrt, albedo, 0.0, r, rec, sample).Some?
  {
    var m := Reflect(r.dir, rec.normal);
    ReflectFlipsNormalComponent(r.dir, rec.normal);
    DotNormalized(sqrt, m, rec.normal);
    assert MetalDirection(sqrt, 0.0, r.dir, rec.normal, sample) == Normalized(sqrt, m);
  }

  // ---------------------------------------------------------------------
  // Dielectric

  /** `1 / ir` when the ray enters the material, `ir` when it leaves. */
  function RefractionRatio(frontFace: bool, ir: real): real {
    if frontFace then Quotient(1.0, ir) else ir
  }

  /** The code's reflectance: `r0 + (1 - r0) (1 - cosine)^2` with `r0 = ((1 - k) / (1 + k))^2`. */
  function Reflectance(cosine: real, refIdx: real): real {
    var r0 := Sq(Quotient(1.0 - refIdx, 1.0 + refIdx));
    r0 + (1.0 - r0) * Sq(1.0 - cosine)
  }

  /** `cos_theta`: the cosine between the reversed unit direction and the normal, capped at 1. */
  function CosTheta(sqrt: real -> real, r: Ray, normal: Vec3): real {
    Min(Dot(Scale(-1.0, Normalized(sqrt, r.dir)), normal), 1.0)
  }

  function SinTheta(sqrt: real -> real, cosTheta: real): real {
    sqrt(1.0 - Sq(cosTheta))
  }

  /** Total internal reflection: `ratio * sin_theta > 1`. */
  predicate CannotRefract(sqrt: real -> real, ir: real, r: Ray, rec: HitData) {
    RefractionRatio(rec.frontFace, ir) * SinTheta(sqrt, CosTheta(sqrt, r, rec.normal)) > 1.0
  }

  /** The dielectric reflects on total internal reflection or when the draw falls below the reflectance. */
  predicate DielectricReflects(sqrt: real -> real, ir: real, r: Ray, rec: HitData, uniform: real) {
    CannotRefract(sqrt, ir, r, rec) ||
    uniform < Reflectance(CosTheta(sqrt, r, rec.normal), RefractionRatio(rec.frontFace, ir))
  }

  /** `Dielectric::scatter`: never absorbs; reflects or refracts the unit direction. */
  function ScatterDielectric(sqrt: real -> real, ir: real, r: Ray, rec: HitData, uniform: real): (s: Option<Scattered>)
    ensures s.Some?
    ensures s.value.attenuation == Vec3(1.0, 1.0, 1.0) && s.value.ray.orig == rec.p
    ensures DielectricReflects(sqrt, ir, r, rec, uniform) ==>
      s.value.ray.dir == Reflect(Normalized(sqrt, r.dir), rec.normal)
    ensures !DielectricReflects(sqrt, ir, r, rec, uniform) ==>
      s.value.ray.dir == Refract(sqrt, Normalized(sqrt, r.dir), rec.normal, RefractionRatio(rec.frontFace, ir))
  {
    var ratio := RefractionRatio(rec.frontFace, ir);
    var unit := Normalized(sqrt, r.dir);
    var direction :=
      if DielectricReflects(sqrt, ir, r, rec, uniform) then Reflect(unit, rec.normal)
      else Refract(sqrt, unit, rec.normal, ratio);
    Some(Scattered(Vec3(1.0, 1.0, 1.0), Ray(rec.p, direction)))
  }

  /** At normal incidence the reflectance is `r0`. */
  lemma ReflectanceAtNormalIncidence(k: real)
    ensures Reflectance(1.0, k) == Sq(Quotient(1.0 - k, 1.0 + k))
  {
    assert Sq(1.0 - 1.0) == 0.0;
  }

  /**
    For a positive index and a cosine in `[0, 1]` the reflectance lies
    between `r0` and 1, and `r0` itself lies in `[0, 1)`.
  */
  lemma {:induction false} ReflectanceBounded(cosine: real, k: real)
    requires k > 0.0
    requires 0.0 <= cosine <= 1.0
    ensures 0.0 <= Sq(Quotient(1.0 - k, 1.0 + k)) < 1.0
    ensures Sq(Quotient(1.0 - k, 1.0 + k)) <= Reflectance(cosine, k) <= 1.0
  {
    var r0 := Sq(Quotient(1.0 - k, 1.0 + k));
    var x := Sq(1.0 - cosine);
    R0Bounded(k);
    UnitSquare(1.0 - cosine);
    BetweenOneAnd(r0, x);
    assert Reflectance(cosine, k) == r0 + (1.0 - r0) * x;
  }

  lemma R0Bounded(k: real)
    requires k > 0.0
    ensures 0.0 <= Sq(Quotient(1.0 - k, 1.0 + k)) < 1.0
  {
    var q := (1.0 - k) / (1.0 + k);
    assert q * (1.0 + k) == 1.0 - k;
    RatioInsideUnit(1.0 - k, 1.0 + k);
    SquareNonNegative(q);
    if q >= 0.0 {
      SquareMonotone(q, 1.0);
    } else {
      SquareMonotone(-q, 1.0);
    }
  }

  /** `(1 - k) / (1 + k)` lies strictly between -1 and 1 for `k > 0`. */
  lemma RatioInsideUnit(a: real, b: real)
    requires b > 0.0 && -b < a < b
    ensures -1.0 < Quotient(a, b) < 1.0
  {
    var q := a / b;
    assert q * b == a;
  }

  lemma UnitSquare(y: real)
    requires 0.0 <= y <= 1.0
    ensures 0.0 <= Sq(y) <= 1.0
  {
    SquareNonNegative(y);
    if y < 1.0 {
      SquareMonotone(y, 1.0);
    }
  }

  lemma BetweenOneAnd(r0: real, x: real)
    requires 0.0 <= r0 < 1.0 && 0.0 <= x <= 1.0
    ensures r0 <= r0 + (1.0 - r0) * x <= 1.0
  {
    ScaleMonotone(1.0 - r0, 0.0, x);
    ScaleMonotone(1.0 - r0, x, 1.0);
  }

  /**
    A unit direction and a unit normal have a cosine in `[-1, 1]`, by
    Lagrange's identity.
  */
  lemma {:induction false} UnitCosineBounded(u: Vec3, n: Vec3)
    requires Dot(u, u) == 1.0 && Dot(n, n) == 1.0
    ensures -1.0 <= Dot(u, n) <= 1.0
  {
    CrossLagrange(u, n);
    DotSelfNonNegative(Cross(u, n));
    UnitProduct(Dot(u, u), Dot(n, n));
    SquareAtMostOne(Dot(u, n));
  }

  lemma UnitProduct(p: real, q: real)
    requires p == 1.0 && q == 1.0
    ensures p * q == 1.0
  {
  }

  lemma SquareAtMostOne(d: real)
    requires Sq(d) <= 1.0
    ensures -1.0 <= d <= 1.0
  {
    if d > 1.0 {
      SquareMonotone(1.0, d);
    } else if d < -1.0 {
      SquareMonotone(1.0, -d);
    }
  }

  /** `cos_theta` lies in `[-1, 1]` for a non-zero direction and a unit normal. */
  lemma {:induction false} CosThetaBounded(sqrt: real -> real, r: Ray, normal: Vec3)
    requires IsSqrt(sqrt)
    requires r.dir != Zero() && Dot(normal, normal) == 1.0
    ensures -1.0 <= CosTheta(sqrt, r, normal) <= 1.0
  {
    var unit := Normalized(sqrt, r.dir);
    NormalizedIsUnit(sqrt, r.dir);
    DotOfScale(-1.0, unit, Scale(-1.0, unit));
    DotOfScale(-1.0, unit, unit);
    UnitCosineBounded(Scale(-1.0, unit), normal);
  }

  /**
    A ray entering a medium at least as dense as the outside (`ir >= 1`)
    never meets total internal reflection.
  */
  lemma {:induction false} EnteringNeverTotallyReflects(sqrt: real -> real, ir: real, r: Ray, rec: HitData)
    requires IsSqrt(sqrt)
    requires r.dir != Zero() && Dot(rec.normal, rec.normal) == 1.0
    requires rec.frontFace && ir >= 1.0
    ensures !CannotRefract(sqrt, ir, r, rec)
  {
    SineOfIncidenceBounded(sqrt, r, rec.normal);
    EnteringWithBoundedSine(sqrt, ir, r, rec);
  }

  lemma EnteringWithBoundedSine(sqrt: real -> real, ir: real, r: Ray, rec: HitData)
    requires rec.frontFace && ir >= 1.0
    requires 0.0 <= SinTheta(sqrt, CosTheta(sqrt, r, rec.normal)) <= 1.0
    ensures !CannotRefract(sqrt, ir, r, rec)
  {
    RatioTimesSine(ir, RefractionRatio(rec.frontFace, ir), SinTheta(sqrt, CosTheta(sqrt, r, rec.normal)));
  }

  lemma {:induction false} SineOfIncidenceBounded(sqrt: real -> real, r: Ray, normal: Vec3)
    requires IsSqrt(sqrt)
    requires r.dir != Zero() && Dot(normal, normal) == 1.0
    ensures 0.0 <= SinTheta(sqrt, CosTheta(sqrt, r, normal)) <= 1.0
  {
    CosThetaBounded(sqrt, r, normal);
    SineBounded(sqrt, CosTheta(sqrt, r, normal));
  }

  lemma SineBounded(sqrt: real -> real, c: real)
    requires IsSqrt(sqrt)
    requires -1.0 <= c <= 1.0
    ensures 0.0 <= SinTheta(sqrt, c) <= 1.0
  {
    UnitSquare(Abs(c));
    assert Sq(Abs(c)) == Sq(c);
    SqrtBelowOne(sqrt, 1.0 - Sq(c));
  }

  lemma RatioTimesSine(ir: real, ratio: real, sin: real)
    requires ir >= 1.0 && ratio == Quotient(1.0, ir) && 0.0 <= sin <= 1.0
    ensures !(ratio * sin > 1.0)
  {
    var k := 1.0 / ir;
    assert k * ir == 1.0;
    assert 0.0 < k <= 1.0;
    ScaleMonotone(k, sin, 1.0);
  }

  /**
    When the dielectric reflects a ray that arrived against a unit normal,
    the reflected ray leaves on the normal's side.
  */
  lemma {:induction false} DielectricReflectionLeavesSurface(sqrt: real -> real, ir: real, r: Ray, rec: HitData, uniform: real)
    requires IsSqrt(sqrt)
    requires Dot(rec.normal, rec.normal) == 1.0
    requires Dot(r.dir, rec.normal) <= 0.0
    requires DielectricReflects(sqrt, ir, r, rec, uniform)
    ensures Dot(ScatterDielectric(sqrt, ir, r, rec, uniform).value.ray.dir, rec.normal) >= 0.0
  {
    var unit := Normalized(sqrt, r.dir);
    DotNormalized(sqrt, r.dir, rec.normal);
    ReflectFlipsNormalComponent(unit, rec.normal);
  }

  // ---------------------------------------------------------------------
  // Dispatch

  /** `rec.mat.scatter(r, &rec)`. */
  function Scatter(sqrt: real -> real, r: Ray, rec: HitData, draw: Draw): (s: Option<Scattered>)
    ensures s.Some? ==> s.value.ray.orig == rec.p
    ensures rec.mat.Lambertian? || rec.mat.Dielectric? ==> s.Some?
    ensures s.Some? && !rec.mat.Dielectric? ==> s.value.attenuation == rec.mat.albedo
    ensures s.Some? && rec.mat.Dielectric? ==> s.value.attenuation == Vec3(1.0, 1.0, 1.0)
  {
    match rec.mat
    case Lambertian(albedo) => ScatterLambertian(sqrt, albedo, rec, draw.inBall)
    case Metal(albedo, fuzz) => ScatterMetal(sqrt, albedo, fuzz, r, rec, draw.inBall)
    case Dielectric(ir) => ScatterDielectric(sqrt, ir, r, rec, draw.uniform)
  }
}
