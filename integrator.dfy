/**
  The colour a ray brings back: follow scattered rays through the world
  for at most a fixed number of bounces, darkening by each attenuation, and
  take the sky's colour when a ray escapes.
*/
module Integrator {
  import opened Wrappers
  import opened Numeric
  import opened Vectors
  import opened Rays
  import opened MaterialKinds
  import opened Hits
  import opened Spheres
  import opened Worlds
  import opened Materials

  /** `MAX_RAY_BOUNCES`. */
  const MaxRayBounces: nat := 50

  /** The `t_min` the world is queried with, so a ray does not re-hit its own origin. */
  const ShadowAcneEpsilon: real := 0.001

  const White: Color := Vec3(1.0, 1.0, 1.0)
  const SkyBlue: Color := Vec3(0.5, 0.7, 1.0)

  /** The background: blend white and sky blue by the height of the unit direction. */
  function Sky(sqrt: real -> real, r: Ray): Color {
    var unit := Normalized(sqrt, r.dir);
    var t := 0.5 * (unit.y + 1.0);
    Add(Scale(1.0 - t, White), Scale(t, SkyBlue))
  }

  /** The draw stream after its first element has been used. */
  function Rest(draws: nat -> Draw): nat -> Draw {
    (n: nat) => draws(n + 1)
  }

  /**
    `ray_color_aux`. The random numbers the scatters consume come from the
    stream `draws`: the first scatter along the path uses `draws(0)`, the
    next one `draws(1)`, and so on.
  */
  function RayColorAux(sqrt: real -> real, world: World, r: Ray, depth: nat, draws: nat -> Draw): Color
    decreases depth
  {
    if depth == 0 then Zero()
    else
      match NearestHit(sqrt, world, r, ShadowAcneEpsilon, Unbounded)
      case None => Sky(sqrt, r)
      case Some(rec) =>
        match Scatter(sqrt, r, rec, draws(0))
        case None => Zero()
        case Some(sc) => Mul(sc.attenuation, RayColorAux(sqrt, world, sc.ray, depth - 1, Rest(draws)))
  }

  /** `ray_color`. */
  function RayColor(sqrt: real -> real, world: World, r: Ray, draws: nat -> Draw): Color {
    RayColorAux(sqrt, world, r, MaxRayBounces, draws)
  }

  /** The number of scatter steps `ray_color_aux` takes before it stops. */
  function Bounces(sqrt: real -> real, world: World, r: Ray, depth: nat, draws: nat -> Draw): (n: nat)
    ensures n <= depth
    ensures depth == 0 ==> n == 0
    decreases depth
  {
    if depth == 0 then 0
    else
      match NearestHit(sqrt, world, r, ShadowAcneEpsilon, Unbounded)
      case None => 0
      case Some(rec) =>
        match Scatter(sqrt, r, rec, draws(0))
        case None => 0
        case Some(sc) => 1 + Bounces(sqrt, world, sc.ray, depth - 1, Rest(draws))
  }

  /**
    A path that stops (escapes to the sky or is absorbed) before the depth
    limit runs out has the same colour, and the same length, under any
    larger limit.
  */
  lemma {:induction false} DeeperLimitSameColor(sqrt: real -> real, world: World, r: Ray, d: nat, e: nat, draws: nat -> Draw)
    requires Bounces(sqrt, world, r, d, draws) < d <= e
    ensures RayColorAux(sqrt, world, r, e, draws) == RayColorAux(sqrt, world, r, d, draws)
    ensures Bounces(sqrt, world, r, e, draws) == Bounces(sqrt, world, r, d, draws)
    decreases d
  {
    var hit := NearestHit(sqrt, world, r, ShadowAcneEpsilon, Unbounded);
    if hit.Some? {
      var s := Scatter(sqrt, r, hit.value, draws(0));
      if s.Some? {
        DeeperLimitSameColor(sqrt, world, s.value.ray, d - 1, e - 1, Rest(draws));
      }
    }
  }

  /** The path reaches the sky before it is absorbed or the depth limit runs out. */
  predicate Escapes(sqrt: real -> real, world: World, r: Ray, depth: nat, draws: nat -> Draw)
    decreases depth
  {
    depth > 0 &&
    match NearestHit(sqrt, world, r, ShadowAcneEpsilon, Unbounded)
    case None => true
    case Some(rec) =>
      match Scatter(sqrt, r, rec, draws(0))
      case None => false
      case Some(sc) => Escapes(sqrt, world, sc.ray, depth - 1, Rest(draws))
  }

  /**
    Only light from the sky reaches the camera: a path that is absorbed, or
    that is still bouncing when the depth limit runs out, is black.
  */
  lemma {:induction false} OnlyEscapingPathsCarryLight(sqrt: real -> real, world: World, r: Ray, depth: nat, draws: nat -> Draw)
    requires !Escapes(sqrt, world, r, depth, draws)
    ensures RayColorAux(sqrt, world, r, depth, draws) == Zero()
    decreases depth
  {
    if depth > 0 {
      var hit := NearestHit(sqrt, world, r, ShadowAcneEpsilon, Unbounded);
      var s := Scatter(sqrt, r, hit.value, draws(0));
      if s.Some? {
        OnlyEscapingPathsCarryLight(sqrt, world, s.value.ray, depth - 1, Rest(draws));
      }
    }
  }

  predicate InUnitCube(c: Color) {
    0.0 <= c.x <= 1.0 && 0.0 <= c.y <= 1.0 && 0.0 <= c.z <= 1.0
  }

  /** Every Lambertian and metal albedo in the world is a colour in `[0, 1]^3`. */
  predicate AlbedosInUnitCube(world: World) {
    forall j :: 0 <= j < |world| && !world[j].mat.Dielectric? ==> InUnitCube(world[j].mat.albedo)
  }

  /** With an exact square root the sky lies between white and sky blue, channel by channel. */
  lemma {:induction false} SkyBetweenWhiteAndBlue(sqrt: real -> real, r: Ray)
    requires IsSqrt(sqrt)
    ensures 0.5 <= Sky(sqrt, r).x <= 1.0
    ensures 0.7 <= Sky(sqrt, r).y <= 1.0
    ensures Sky(sqrt, r).z == 1.0
  {
    NormalizedComponentsBounded(sqrt, r.dir);
  }

  lemma ProductInUnitCube(a: Color, b: Color)
    requires InUnitCube(a) && InUnitCube(b)
    ensures InUnitCube(Mul(a, b))
  {
    FractionProduct(a.x, b.x);
    FractionProduct(a.y, b.y);
    FractionProduct(a.z, b.z);
  }

  /**
    With albedos in `[0, 1]^3` and an exact square root, every colour the
    integrator returns lies in `[0, 1]^3`: bounces only darken the sky.
  */
  lemma {:induction false} RayColorInUnitCube(sqrt: real -> real, world: World, r: Ray, depth: nat, draws: nat -> Draw)
    requires IsSqrt(sqrt)
    requires AlbedosInUnitCube(world)
    ensures InUnitCube(RayColorAux(sqrt, world, r, depth, draws))
    decreases depth
  {
    if depth > 0 {
      var hit := NearestHit(sqrt, world, r, ShadowAcneEpsilon, Unbounded);
      if hit.None? {
        SkyBetweenWhiteAndBlue(sqrt, r);
      } else {
        var rec := hit.value;
        var s := Scatter(sqrt, r, rec, draws(0));
        if s.Some? {
          var j := NearestMaterialBelongsToObject(sqrt, world, r, ShadowAcneEpsilon, Unbounded, |world|);
          assert InUnitCube(s.value.attenuation);
          RayColorInUnitCube(sqrt, world, s.value.ray, depth - 1, Rest(draws));
          ProductInUnitCube(s.value.attenuation, RayColorAux(sqrt, world, s.value.ray, depth - 1, Rest(draws)));
        }
      }
    }
  }

  /** An empty scene shows the sky for any ray, at any positive depth. */
  lemma EmptySceneShowsSky(sqrt: real -> real, r: Ray, depth: nat, draws: nat -> Draw)
    requires depth > 0
    ensures RayColorAux(sqrt, [], r, depth, draws) == Sky(sqrt, r)
  {
  }
}
