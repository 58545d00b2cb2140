/**
  The three surface materials. A hit record carries the material of the
  object it hit, so the kinds live apart from the scatter functions that
  interpret them.
*/
module MaterialKinds {
  import opened Vectors

  datatype Material =
    | Lambertian(albedo: Color)
    | Metal(albedo: Color, fuzz: real)
    | Dielectric(ir: real)
}
