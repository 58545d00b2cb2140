# A verified model of a small Monte-Carlo path tracer

This project models the decision logic of a small Rust path tracer in Dafny.
The tracer renders a scene of spheres: it finds the closest sphere hit by a
ray, orients the surface normal against the ray, asks the sphere's material
to scatter the ray, follows the scattered ray for up to 50 bounces and falls
back to a sky gradient when a ray escapes. The model covers which branch
each step takes, what it returns and which bounds hold. Those facts follow
from comparisons, not from rounding.

Modelling conventions:

- `f64` is `real`. Division by zero is `Numeric.Quotient(x, 0) == 0` (see Left out).
- An interval bound that may be `f64::INFINITY` is a `Numeric.Bound`, either `Finite(t)` or `Unbounded`.
- `sqrt` is a parameter `sqrt: real -> real` of every member that needs it. Lemmas that need the true square root require `IsSqrt(sqrt)`: for `x >= 0`, `sqrt(x) >= 0` and `sqrt(x)^2 == x`.
- Random draws are parameters:
  - a `Materials.Draw` holds what one scatter call draws;
  - the integrator takes a stream `draws: nat -> Draw`, whose first element the first scatter uses;
  - the rejection samplers take a finite sequence of candidate draws.

Modules, one per source file, in dependency order:

- `numeric.dfy`: `Wrappers` (Option) and `Numeric` (bounds, clamp, square and square-root facts).
- `vec3.dfy`: `Vectors` models `src/vec3.rs`:
  - the operators and the algebra of dot, cross and reflect;
  - `near_zero`, `format_color` and the samplers;
  - `Vec3Cell`, a place whose value the compound assignments overwrite.
- `ray.dfy`: `Rays`, a minimal `Ray(orig, dir)` with `At(t) = orig + t dir`.
- `material_kinds.dfy`: `MaterialKinds`, the three materials as one datatype.
- `hit.dfy`: `Hits` models `src/hit.rs` `HitRecord`:
  - the class the source mutates;
  - `HitData`, the class's value.
- `sphere.dfy`: `Spheres` models `src/sphere.rs`:
  - `Intersect` specifies the hit;
  - `Hit` is the imperative routine.
- `world.dfy`: `Worlds` models `World::hit` in `src/hit.rs`:
  - `NearestHit` specifies the scan;
  - `Hit` is the loop.
- `material.dfy`: `Materials` models `src/material.rs`.
- `integrator.dfy`: `Integrator` models `ray_color` / `ray_color_aux` in `src/main.rs`. It queries the world on `[0.001, Unbounded]` (`ShadowAcneEpsilon`) and starts at `MaxRayBounces = 50`.

The dielectric reflectance follows the code, `r0 + (1 - r0)(1 - cosine)^2`, with the square written at src/material.rs:66. It is not the fifth power of Schlick's textbook approximation.

## Model

| member | source | states |
|---|---|---|
| Numeric.Clamp | src/vec3.rs:56-58 | `f64::clamp` lands in `[lo, hi]` and leaves a value already inside unchanged |
| Vectors.Channel | src/vec3.rs:56-58 | every channel `format_color` prints is an integer in `0..=255`, for every sum and sample count, including the infinite and NaN paths |
| Vectors.FormatColor | src/vec3.rs:55-61 | all three printed channels are at most 255 |
| Vectors.ChannelMonotone | src/vec3.rs:56-58 | for `samples > 0`, a larger channel sum never prints a smaller integer |
| Vectors.ChannelSaturates | src/vec3.rs:56-58 | for `samples > 0`, the channel is 255 exactly when the average reaches `(255/256)^2` |
| Vectors.ChannelOfBlack | src/vec3.rs:56-58 | a zero sum prints 0 |
| Vectors.InHemisphere | src/vec3.rs:88-95 | the result has non-negative dot with the normal; it is the sample when the sample's dot is positive, else its negation; its length is the sample's |
| Vectors.RandomInUnitSphere | src/vec3.rs:79-86 | returns the first candidate of length below 1, having rejected every earlier one; the result has length below 1 |
| Vectors.RandomInUnitDisk | src/vec3.rs:97-106 | returns `(x, y, 0)` for the first candidate pair of length below 1; the result has `z = 0` and length below 1 |
| Vectors.Vec3Cell.AddAssign | src/vec3.rs:155-161 | the new value is `old + other`, the `Add` operator's result |
| Vectors.Vec3Cell.SubAssign | src/vec3.rs:173-179 | the new value is `old - other` |
| Vectors.Vec3Cell.MulAssign | src/vec3.rs:205-211 | the new value is `old * k` |
| Vectors.Vec3Cell.DivAssign | src/vec3.rs:233-239 | the new value is `old / k` |
| Vectors.Vec3Cell.SetComponent | src/vec3.rs:139-143 | writing through `IndexMut` sets component `i` and leaves the other two unchanged |
| Vectors.Zero | src/vec3.rs:63-65 | no contract; computes what the cited lines compute; properties in `SubUndoesAdd`, `DotSelfNonNegative`, `NotNearZeroIsNonZero` |
| Vectors.Component | src/vec3.rs:131-137 | no contract; computes what the cited lines compute; properties in `NearZeroIffAllComponentsSmall`, `Vectors.Vec3Cell.SetComponent` |
| Vectors.Add | src/vec3.rs:145-153 | no contract; computes what the cited lines compute; properties in `SubUndoesAdd`, `DotOfAdd`, `Vectors.Vec3Cell.AddAssign` |
| Vectors.Sub | src/vec3.rs:163-171 | no contract; computes what the cited lines compute; properties in `SubUndoesAdd`, `DotOfSub`, `Vectors.Vec3Cell.SubAssign` |
| Vectors.Mul | src/vec3.rs:181-193 | no contract; computes what the cited lines compute; properties in `Integrator.ProductInUnitCube` |
| Vectors.MulScalar | src/vec3.rs:195-203 | no contract; computes what the cited lines compute; properties in `ScalarProductsAgree`, `Vectors.Vec3Cell.MulAssign` |
| Vectors.Scale | src/vec3.rs:213-221 | no contract; computes what the cited lines compute; properties in `ScalarProductsAgree`, `DivUndoesScale`, `DotOfScale` |
| Vectors.Div | src/vec3.rs:223-231 | no contract; computes what the cited lines compute; properties in `DivUndoesScale`, `NormalizedIsScale`, `Vectors.Vec3Cell.DivAssign` |
| Vectors.Dot | src/vec3.rs:32-34 | no contract; computes what the cited lines compute; properties in `DotSymmetric`, `DotOfAdd`, `DotOfSub`, `DotOfScale`, `DotSelfNonNegative` |
| Vectors.Cross | src/vec3.rs:40-48 | no contract; computes what the cited lines compute; properties in `CrossOrthogonal`, `CrossLagrange` |
| Vectors.Length | src/vec3.rs:36-38 | no contract; computes what the cited lines compute; properties in `LengthPositive`, `LengthBelowOne` |
| Vectors.Normalized | src/vec3.rs:50-53 | no contract; computes what the cited lines compute; properties in `NormalizedIsScale`, `NormalizedIsUnit`, `DotNormalized`, `NormalizedComponentsBounded` |
| Vectors.Reflect | src/vec3.rs:113-115 | no contract; computes what the cited lines compute; properties in `ReflectFlipsNormalComponent`, `ReflectInvolutive`, `ReflectPreservesLength` |
| Vectors.Refract | src/vec3.rs:117-122 | no contract; computes what the cited lines compute; no property is proved (see Left out) |
| Vectors.NearZero | src/vec3.rs:108-111 | no contract; computes what the cited lines compute; properties in `NearZeroIffAllComponentsSmall`, `NotNearZeroIsNonZero` |
| Vectors.SubUndoesAdd | src/vec3.rs:145-171 | subtracting `b` undoes adding `b`, and the reverse |
| Vectors.ScalarProductsAgree | src/vec3.rs:195-221 | `v * k` and `k * v` are the same vector |
| Vectors.DivUndoesScale | src/vec3.rs:213-231 | for `k != 0`, dividing by `k` undoes scaling by `k`, and the reverse |
| Vectors.DotSymmetric | src/vec3.rs:32-34 | the dot product is symmetric |
| Vectors.DotOfAdd | src/vec3.rs:32-34 | the dot product distributes over addition |
| Vectors.DotOfSub | src/vec3.rs:32-34 | the dot product distributes over subtraction |
| Vectors.DotOfScale | src/vec3.rs:32-34 | a scalar factor moves out of either argument |
| Vectors.DotSelfNonNegative | src/vec3.rs:32-34 | `v . v >= 0`, and it is 0 only for the zero vector |
| Vectors.CrossOrthogonal | src/vec3.rs:40-48 | `cross(a, b)` is orthogonal to both `a` and `b` |
| Vectors.CrossLagrange | src/vec3.rs:40-48 | `(a . a)(b . b) - (a . b)^2 = cross(a, b) . cross(a, b)` (Lagrange's identity) |
| Vectors.ReflectFlipsNormalComponent | src/vec3.rs:113-115 | for a unit `n`, `reflect(v, n) . n = -(v . n)` |
| Vectors.ReflectInvolutive | src/vec3.rs:113-115 | for a unit `n`, reflecting twice gives back `v` |
| Vectors.ReflectPreservesLength | src/vec3.rs:113-115 | for a unit `n`, reflection keeps `v . v` |
| Vectors.LengthPositive | src/vec3.rs:36-38 | with an exact square root, the length is non-negative, its square is `v . v`, and it is 0 only for the zero vector |
| Vectors.LengthBelowOne | src/vec3.rs:36-38 | the samplers' test `length < 1` is the same as `v . v < 1` |
| Vectors.NormalizedIsScale | src/vec3.rs:50-53 | a non-zero vector divided by its length is the vector scaled by `1 / length` |
| Vectors.NormalizedIsUnit | src/vec3.rs:50-53 | a normalised non-zero vector has unit length |
| Vectors.DotNormalized | src/vec3.rs:50-53 | normalising keeps the sign of the dot with any vector |
| Vectors.NormalizedComponentsBounded | src/vec3.rs:50-53 | every component of a normalised vector lies in `[-1, 1]` |
| Vectors.NearZeroIffAllComponentsSmall | src/vec3.rs:108-111 | `near_zero` holds exactly when all three components have absolute value below `1e-8` |
| Vectors.NotNearZeroIsNonZero | src/vec3.rs:108-111 | a vector that is not near zero is not the zero vector; the zero vector is near zero |
| Rays.At | src/sphere.rs:38 | no contract; computes what the cited lines compute; properties in `Spheres.OnSphereIffRoot`, `Spheres.IntersectIsOnSphere` |
| Hits.FrontFace | src/hit.rs:15 | no contract; computes what the cited lines compute; properties in `Hits.WithFaceNormal`, `Hits.HitRecord.SetFaceNormal` |
| Hits.HitRecord.Data | src/hit.rs:5-11 | no contract; computes what the cited lines compute; properties in `Hits.HitRecord.constructor`, `Hits.HitRecord.SetFaceNormal`, `Spheres.Hit` |
| Hits.OrientedNormal | src/hit.rs:16-20 | the stored normal is the outward normal or its negation, has the same length, and never points along the ray |
| Hits.WithFaceNormal | src/hit.rs:14-21 | `front_face` holds iff `dir . outward < 0`; the normal is `outward` when front-facing, else `-outward`; `dir . normal <= 0`; `p`, `mat` and `t` are unchanged |
| Hits.HitRecord.constructor | src/sphere.rs:39-45 | the fresh record holds exactly the given fields |
| Hits.HitRecord.SetFaceNormal | src/hit.rs:14-21 | the record's new value is `WithFaceNormal` of its old value; `front_face` iff `dir . outward < 0`; `dir . normal <= 0` |
| Spheres.Coefficients | src/sphere.rs:19-22 | no contract; computes what the cited lines compute; properties in `OnSphereIffRoot` |
| Spheres.Discriminant | src/sphere.rs:23 | no contract; computes what the cited lines compute; properties in `SelectRoot`, `RootsOfQuadratic` |
| Spheres.NearRoot | src/sphere.rs:29-30 | no contract; computes what the cited lines compute; properties in `SelectRoot`, `RootsOrdered`, `RootsOfQuadratic` |
| Spheres.FarRoot | src/sphere.rs:29-32 | no contract; computes what the cited lines compute; properties in `SelectRoot`, `RootsOrdered`, `RootsOfQuadratic` |
| Spheres.OutwardNormal | src/sphere.rs:47 | no contract; computes what the cited lines compute; properties in `Intersect`, `IntersectNormalIsUnit` |
| Spheres.SelectRoot | src/sphere.rs:25-36 | a negative discriminant gives no root; a returned root lies in `[t_min, t_max]` and is the near or the far root; the near root is returned whenever it is in range; no root means neither is in range |
| Spheres.Intersect | src/sphere.rs:18-50 | a hit exactly when a root is selected, at that `t`; `p = r.at(t)`, the sphere's material, `front_face` iff `dir . outward < 0`; the normal is `(p - center) / radius` when `front_face` and its negation otherwise, with `dir . normal <= 0` |
| Spheres.Hit | src/sphere.rs:18-50 | the mutable-root routine that fills and orients a fresh record returns no record exactly when `Intersect` finds none, and otherwise a record whose value is `Intersect`'s |
| Spheres.SelectRootShrink | src/sphere.rs:30-36 | lowering `t_max` to any value not below the selected root selects the same root |
| Spheres.IntersectShrink | src/sphere.rs:30-36 | lowering `t_max` to any value not below the returned `t` gives the same hit, which is what the world scan relies on |
| Spheres.RootsOrdered | src/sphere.rs:29-32 | with `a >= 0` and a non-negative discriminant, the near root is at most the far root |
| Spheres.SelectRootGrow | src/sphere.rs:30-36 | raising `t_max` keeps a selected root selected |
| Spheres.IntersectGrow | src/sphere.rs:30-36 | raising `t_max` keeps a hit the same hit |
| Spheres.OnSphereIffRoot | src/sphere.rs:19-23 | `r.at(t)` lies on the sphere exactly when `t` is a root of the quadratic built from `a`, `half_b`, `c` |
| Spheres.RootsOfQuadratic | src/sphere.rs:23-36 | for `a > 0`, the roots are exactly the near and far roots, and there are none when the discriminant is negative |
| Spheres.IntersectIsNearestSurfacePoint | src/sphere.rs:29-36 | for a non-zero direction, any in-range point of the ray on the sphere means a hit is returned, at a `t` no larger |
| Spheres.IntersectIsOnSphere | src/sphere.rs:29-38 | the returned point lies on the sphere |
| Spheres.IntersectNormalIsUnit | src/sphere.rs:47-48 | for a non-zero radius the stored normal has unit length |
| Spheres.ZeroDirectionMisses | src/sphere.rs:19-36 | with an exact square root, a ray with a zero direction gets no hit for any positive `t_min`, because `a = 0` and both roots divide by zero (the source's NaN root is not modelled; see Left out) |
| Worlds.Closest | src/hit.rs:33-37 | no contract; computes what the cited lines compute; properties in `NearestPrefix`, `ScanNarrows` |
| Worlds.NearestHit | src/hit.rs:30-43 | no contract; computes what the cited lines compute; properties in `Worlds.Hit`, `MissIffNoObjectHits`, `NearestIsNoFarther`, `NearestIsLastClosestObject`, `NearestIsClosestSurfacePoint` |
| Worlds.NearestPrefix | src/hit.rs:32-40 | after any number of objects, a held record has `t` in `[t_min, t_max]` and `closest` is at most `t_max` |
| Worlds.Hit | src/hit.rs:30-43 | the loop returns the scan's record, `None` exactly when the scan has none; a returned `t` lies in `[t_min, t_max]`; an empty world returns `None` |
| Worlds.ScanNarrows | src/hit.rs:33-38 | once the scan holds a record it keeps one, and `closest` never increases |
| Worlds.MissIffNoObjectHits | src/hit.rs:35-40 | the scan finds nothing exactly when no object reports a hit on the whole `[t_min, t_max]` |
| Worlds.MissMeansNoObjectHits | src/hit.rs:35-40 | a scan with no record means every object misses on `[t_min, t_max]` |
| Worlds.HitComesFromAnObject | src/hit.rs:35-40 | a record held means some object hits on `[t_min, t_max]` |
| Worlds.NearestIsNoFarther | src/hit.rs:35-40 | the returned `t` is at most every object's own hit `t` on `[t_min, t_max]` |
| Worlds.LaterObjectWinsTie | src/hit.rs:36-38 | an object whose hit is no farther than the held record replaces it, so on equal `t` the later object wins |
| Worlds.NearestIsLastClosestObject | src/hit.rs:35-42 | the returned record is some object's own hit on `[t_min, t_max]`, and every later object's hit is strictly farther |
| Worlds.NearestMaterialBelongsToObject | src/hit.rs:36-38 | the returned record's material is the material of one of the world's spheres |
| Worlds.NearestIsClosestSurfacePoint | src/hit.rs:35-40 | for a non-zero direction, the returned `t` is at most that of any in-range point of the ray on any sphere |
| Materials.LambertianDirection | src/material.rs:21-24 | the direction is `normal + sample.normalized()` unless that is near zero, in which case exactly `normal`; it is never near zero when the normal is not |
| Materials.ScatterLambertian | src/material.rs:20-28 | always scatters, with attenuation `albedo`, from `rec.p`, along the Lambertian direction |
| Materials.ComputeLambertianScatter | src/material.rs:20-28 | the routine that reassigns `scatter_dir` returns exactly `ScatterLambertian`: always Some, attenuation `albedo`, origin `rec.p` |
| Materials.MetalDirection | src/material.rs:44-45 | no contract; computes what the cited lines compute; properties in `ScatterMetal`, `MirrorNeverAbsorbs` |
| Materials.ScatterMetal | src/material.rs:43-52 | absorbs exactly when `scattered.dir . normal <= 0`; otherwise attenuation `albedo`, origin `rec.p`, the fuzzed mirror direction, leaving on the normal's side |
| Materials.MirrorNeverAbsorbs | src/material.rs:44-47 | with no fuzz, a ray arriving against a unit normal is never absorbed |
| Materials.RefractionRatio | src/material.rs:72-76 | no contract; computes what the cited lines compute; properties in `ScatterDielectric`, `EnteringNeverTotallyReflects` |
| Materials.Reflectance | src/material.rs:64-67 | no contract; computes what the cited lines compute; properties in `ReflectanceAtNormalIncidence`, `ReflectanceBounded` |
| Materials.CosTheta | src/material.rs:78-79 | no contract; computes what the cited lines compute; properties in `CosThetaBounded` |
| Materials.SinTheta | src/material.rs:80 | no contract; computes what the cited lines compute; properties in `SineOfIncidenceBounded` |
| Materials.CannotRefract | src/material.rs:83 | no contract; computes what the cited lines compute; properties in `ScatterDielectric`, `EnteringNeverTotallyReflects` |
| Materials.DielectricReflects | src/material.rs:83-86 | no contract; computes what the cited lines compute; properties in `ScatterDielectric`, `DielectricReflectionLeavesSurface` |
| Materials.ScatterDielectric | src/material.rs:71-95 | always scatters with attenuation `(1, 1, 1)` from `rec.p`; reflects the unit direction when `ratio sin > 1` or the draw is below the reflectance, else refracts it with ratio `1/ir` entering and `ir` leaving |
| Materials.ReflectanceAtNormalIncidence | src/material.rs:64-67 | `reflectance(1, k) = ((1 - k)/(1 + k))^2 = r0` |
| Materials.ReflectanceBounded | src/material.rs:64-67 | for `k > 0` and `cosine` in `[0, 1]`, `0 <= r0 < 1` and the reflectance lies in `[r0, 1]` |
| Materials.CosThetaBounded | src/material.rs:78-79 | for a non-zero direction and a unit normal, `cos_theta` lies in `[-1, 1]` |
| Materials.SineOfIncidenceBounded | src/material.rs:78-80 | for a non-zero direction and a unit normal, `sin_theta` lies in `[0, 1]` |
| Materials.EnteringNeverTotallyReflects | src/material.rs:72-83 | a ray entering a medium with `ir >= 1` never meets total internal reflection |
| Materials.DielectricReflectionLeavesSurface | src/material.rs:83-87 | when the dielectric reflects a ray that arrived against a unit normal, the reflected ray leaves on the normal's side |
| Materials.Scatter | src/material.rs:19-95 | dispatching on the material: every scattered ray starts at `rec.p`; Lambertian and dielectric always scatter; Lambertian and metal attenuate by the albedo, dielectric by `(1, 1, 1)` |
| Integrator.Sky | src/main.rs:166-169 | no contract; computes what the cited lines compute; properties in `SkyBetweenWhiteAndBlue`, `EmptySceneShowsSky` |
| Integrator.RayColorAux | src/main.rs:155-171 | no contract; computes what the cited lines compute; properties in `Bounces`, `OnlyEscapingPathsCarryLight`, `DeeperLimitSameColor`, `RayColorInUnitCube`, `EmptySceneShowsSky` |
| Integrator.RayColor | src/main.rs:154-174 | no contract; computes what the cited lines compute; properties in `RayColorInUnitCube` and `Bounces` at depth `MaxRayBounces` |
| Integrator.Escapes | src/main.rs:156-169 | no contract; holds when the path reaches the sky branch before it is absorbed or the depth runs out; used by `OnlyEscapingPathsCarryLight` |
| Integrator.Bounces | src/main.rs:155-173 | a path scatters at most `depth` times, so the top-level call, which starts at `MAX_RAY_BOUNCES = 50`, stops after at most 50 scatter steps |
| Integrator.OnlyEscapingPathsCarryLight | src/main.rs:156-165 | a path that is absorbed, or still bouncing when the depth runs out, returns black |
| Integrator.DeeperLimitSameColor | src/main.rs:155-171 | a path that stops before the depth runs out has the same colour and length under any larger depth |
| Integrator.SkyBetweenWhiteAndBlue | src/main.rs:166-169 | the sky colour lies channel by channel between white `(1, 1, 1)` and `(0.5, 0.7, 1.0)` |
| Integrator.ProductInUnitCube | src/main.rs:161-162 | the component-wise product of two colours in `[0, 1]^3` stays in `[0, 1]^3` |
| Integrator.RayColorInUnitCube | src/main.rs:155-171 | with every albedo in `[0, 1]^3`, every colour `ray_color_aux` returns lies in `[0, 1]^3` |
| Integrator.EmptySceneShowsSky | src/main.rs:160-169 | with no objects, any ray at positive depth gets the sky colour |

## Left out

- `create_world`, `write_ppm` and `main` in `src/main.rs` are left out. They cover:
  - random scene population;
  - file output and progress printing;
  - the per-pixel sample loop and its `rayon` parallelism.
- `src/camera.rs` is left out. It is a branch-free floating-point pipeline.
- `src/ray.rs` is not part of this model. `Rays.Ray` and `Rays.At` are defined from the use of `r.at` at src/sphere.rs:38, and nothing further is claimed about them.
- Floating point is not modelled: there is no rounding, no NaN and no infinity. Division by zero yields 0 (`Numeric.Quotient`). So:
  - normalising the zero vector gives the zero vector;
  - a zero ray direction gives a zero `a` and zero roots where the source computes NaN.
  - so with a zero ray direction the two behave differently. In the source the root is NaN, both range comparisons are false, and `hit` reports a hit with `t = NaN`. In the model, with an exact square root, `a` is 0, both roots are 0, and any query with a positive `t_min` misses (`Spheres.ZeroDirectionMisses`); the integrator queries with `t_min = 0.001`.

  The lemmas that depend on this require a non-zero direction or radius. `Vectors.Channel` is the exception: it writes out the infinite and NaN paths of `format_color` explicitly.
- `sqrt` is a parameter rather than a function of the model. `Vectors.Refract` is modelled as the source writes it, but no property of it is proved.
- `Vectors.Vec3Cell.SetComponent`: its `requires i < 3` stands in for the out-of-range panic of `IndexMut` (src/vec3.rs:139-143); the panic itself is not modelled. `Vectors.Component` does the same for `Index`.
- `Display` for `Vec3` is left out because it only formats text.
- `Vectors.RandomInUnitSphere`, `Vectors.RandomInUnitDisk`: the source retries forever; the model scans a finite sequence of candidate draws and returns `None` when all are rejected. The draw distributions, the expected number of tries and the statistical convergence of the per-pixel average are not modelled.
- `Vec3::random` and `rand::thread_rng` are left out. Their results are parameters:
  - a `Materials.Draw` per scatter call;
  - a stream of draws for a whole path in `Integrator.RayColorAux`.
- The world holds spheres only, as the scene the program builds does. `Box<dyn Hit>` nesting (a world inside a world) is not modelled.
- The material is a datatype rather than an `Arc<dyn Scatter>`, so shared ownership is not modelled.
- `Worlds.NearestIsNoFarther`, `Worlds.NearestIsClosestSurfacePoint`: proved for the spheres of the model, whose `Intersect` returns the nearest in-range root. They are not proved for an arbitrary `Hit` implementation.
