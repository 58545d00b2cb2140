/**
  The ray type the renderer passes around: an origin and a direction.
  Only the point at parameter `t` is needed by the modelled code.
*/
module Rays {
  import opened Vectors

  datatype Ray = Ray(orig: Point3, dir: Vec3)

  /** `r.at(t)`: the point `orig + t * dir`. */
  function At(r: Ray, t: real): Point3 {
    Add(r.orig, Scale(t, r.dir))
  }
}
