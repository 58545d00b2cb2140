/**
  The record of a ray hitting a surface, and the orientation of its normal
  against the incoming ray.
*/
module Hits {
  import opened Vectors
  import opened Rays
  import opened MaterialKinds

  /** The value held by a `HitRecord`. */
  datatype HitData = HitData(p: Point3, normal: Vec3, mat: Material, t: real, frontFace: bool)

  /** The ray arrives from outside: it runs against the outward normal. */
  predicate FrontFace(r: Ray, outward: Vec3) {
    Dot(r.dir, outward) < 0.0
  }

  /**
    The normal stored by `set_face_normal`: the outward normal when the ray
    arrives from outside, its negation otherwise. Either way it faces the
    ray.
  */
  function OrientedNormal(r: Ray, outward: Vec3): (n: Vec3)
    ensures Dot(r.dir, n) <= 0.0
    ensures n == outward || n == Scale(-1.0, outward)
    ensures Dot(n, n) == Dot(outward, outward)
  {
    if FrontFace(r, outward) then outward else Scale(-1.0, outward)
  }

  /** The record `set_face_normal` leaves behind. */
  function WithFaceNormal(rec: HitData, r: Ray, outward: Vec3): (out: HitData)
    ensures out.frontFace <==> Dot(r.dir, outward) < 0.0
    ensures Dot(r.dir, out.normal) <= 0.0
    ensures out.frontFace ==> out.normal == outward
    ensures !out.frontFace ==> out.normal == Scale(-1.0, outward)
    ensures out.p == rec.p && out.mat == rec.mat && out.t == rec.t
  {
    rec.(frontFace := FrontFace(r, outward), normal := OrientedNormal(r, outward))
  }

  class HitRecord {
    var p: Point3
    var normal: Vec3
    var mat: Material
    var t: real
    var frontFace: bool

    constructor (p: Point3, normal: Vec3, mat: Material, t: real, frontFace: bool)
      ensures Data() == HitData(p, normal, mat, t, frontFace)
    {
      this.p := p;
      this.normal := normal;
      this.mat := mat;
      this.t := t;
      this.frontFace := frontFace;
    }

    function Data(): HitData
      reads this
    {
      HitData(p, normal, mat, t, frontFace)
    }

    /** `set_face_normal`: overwrite `front_face` and `normal`, keep the rest. */
    method SetFaceNormal(r: Ray, outward: Vec3)
      modifies this
      ensures Data() == WithFaceNormal(old(Data()), r, outward)
      ensures frontFace <==> Dot(r.dir, outward) < 0.0
      ensures Dot(r.dir, normal) <= 0.0
    {
      frontFace := Dot(r.dir, outward) < 0.0;
      if frontFace {
        normal := outward;
      } else {
        normal := Scale(-1.0, outward);
      }
    }
  }
}
