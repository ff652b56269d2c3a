/** src/materials: the C++ materials, with the shared `reflect` and `refract` of
    src/materials/material.cpp. Random samples are parameters; `normalize`, `sqrt`,
    `Vec::isNearZero` and `randomFloat` are oracles or parameters. */
module CppMaterials {
  import opened ExtReals
  import opened Wrappers
  import opened Vectors
  import opened Colors
  import opened Observable
  import SphereCpp
  import RustMaterials

  /** The `Pair` a C++ material returns: the scattered ray and its attenuation. */
  datatype Pair = Pair(scattered: Ray, attenuation: Color)

  /** `reflect` of src/materials/material.cpp: the mirror image about `normal`. It is
      the same formula as the Rust `Dielectric::reflect`. */
  function Reflect(ray: Vec3, normal: Vec3): (r: Vec3)
    ensures r == RustMaterials.Reflect(ray, normal)
    ensures NormSquared(normal) == 1.0 ==> Dot(r, normal) == -Dot(ray, normal)
  {
    assert NormSquared(normal) == 1.0 ==> Dot(RustMaterials.Reflect(ray, normal), normal) == -Dot(ray, normal) by {
      if NormSquared(normal) == 1.0 { RustMaterials.ReflectInvolution(ray, normal); }
    }
    Sub(ray, Scale(2.0 * Dot(ray, normal), normal))
  }

  /** `refract` of src/materials/material.cpp, with the cosine measured against the
      reversed ray and capped at 1. It has no total-reflection test of its own: the
      result is always the part of the ray perpendicular to the normal, scaled by the
      ratio, plus a multiple of the normal. */
  function Refract(ray: Vec3, normal: Vec3, ratio: real, sqrt: real -> real): (d: Vec3)
    ensures exists k :: d == Add(Scale(ratio, Add(ray, Scale(CosTheta(ray, normal), normal))), Scale(k, normal))
  {
    var perpendicular := Scale(ratio, Add(ray, Scale(CosTheta(ray, normal), normal)));
    var k := -sqrt(Abs(1.0 - NormSquared(perpendicular)));
    Add(perpendicular, Scale(k, normal))
  }

  /** The C++ `refract` and the Rust `Dielectric::refract` measure the cosine with
      opposite signs, yet for a true cosine (`-1 <= ray . normal <= 1`) and a ratio
      that allows refraction they compute the same direction. */
  lemma RefractAgreesWithRust(ray: Vec3, normal: Vec3, ratio: real, sqrt: real -> real)
    requires -1.0 <= Dot(ray, normal) <= 1.0
    requires !RustMaterials.CannotRefract(ratio, RustMaterials.SinTheta(RustMaterials.CosTheta(ray, normal), sqrt))
    ensures Refract(ray, normal, ratio, sqrt) == RustMaterials.Refract(ray, normal, ratio, sqrt)
  {
    var c := Dot(ray, normal);
    AddNegatedScale(ray, c, normal);
    var perpendicular := Scale(ratio, Sub(ray, Scale(c, normal)));
    var k := sqrt(Abs(1.0 - NormSquared(perpendicular)));
    AddNegatedScale(perpendicular, k, normal);
  }

  /** Adding `-s` times `n` subtracts `s` times `n`. */
  lemma AddNegatedScale(a: Vec3, s: real, n: Vec3)
    ensures Add(a, Scale(-s, n)) == Sub(a, Scale(s, n))
  {
    assert (-s) * n.x == -(s * n.x) && (-s) * n.y == -(s * n.y) && (-s) * n.z == -(s * n.z);
  }

  /** `Lambertian::scatter`: always scatters, from the hit point, towards
      `normal + sample`, or along the normal when that sum is near zero
      (`isNearZero` is an oracle); the attenuation is the albedo. */
  function LambertianScatter(albedo: Color, obs: Observation, sample: Vec3, isNearZero: Vec3 -> bool): (r: Pair)
    ensures r.scattered.origin == obs.point && r.attenuation == albedo
    ensures isNearZero(Add(obs.normal, sample)) ==> r.scattered.direction == obs.normal
    ensures !isNearZero(Add(obs.normal, sample)) ==> r.scattered.direction == Add(obs.normal, sample)
  {
    var direction := Add(obs.normal, sample);
    Pair(Ray(obs.point, if isNearZero(direction) then obs.normal else direction), albedo)
  }

  datatype Metal = Metal(sheen: Color, fuzz: real)

  /** `Metal(sheen)`: a metal without fuzz. */
  function NewMetal(sheen: Color): (m: Metal)
    ensures m.sheen == sheen && m.fuzz == 0.0
  {
    Metal(sheen, 0.0)
  }

  /** `Metal(sheen, fuzz)`: the fuzz is clamped into `[0, 1]`, exactly as a colour
      channel is clamped; a fuzz already in range is kept. */
  function NewFuzzyMetal(sheen: Color, fuzz: real): (m: Metal)
    ensures m.sheen == sheen && 0.0 <= m.fuzz <= 1.0
    ensures 0.0 <= fuzz <= 1.0 ==> m.fuzz == fuzz
    ensures m.fuzz == ClampChannel(fuzz)
  {
    if fuzz < 0.0 then Metal(sheen, 0.0)
    else if fuzz > 1.0 then Metal(sheen, 1.0)
    else Metal(sheen, fuzz)
  }

  /** Clamping twice is clamping once, and a fuzz of 0 gives the unfuzzed metal. */
  lemma FuzzClampStable(sheen: Color, fuzz: real)
    ensures NewFuzzyMetal(sheen, NewFuzzyMetal(sheen, fuzz).fuzz) == NewFuzzyMetal(sheen, fuzz)
    ensures NewFuzzyMetal(sheen, 0.0) == NewMetal(sheen)
  {}

  /** `Metal::scatter`: always scatters, from the hit point, towards the reflection of
      the normalised direction perturbed by `fuzz` times the in-sphere sample; the
      attenuation is the sheen. */
  function MetalScatter(m: Metal, ray: Ray, obs: Observation, sample: Vec3, normalize: Vec3 -> Vec3): (r: Pair)
    ensures r.scattered.origin == obs.point && r.attenuation == m.sheen
    ensures Sub(r.scattered.direction, Reflect(normalize(ray.direction), obs.normal)) == Scale(m.fuzz, sample)
  {
    Pair(Ray(obs.point, Add(Reflect(normalize(ray.direction), obs.normal), Scale(m.fuzz, sample))), m.sheen)
  }

  /** An unfuzzed metal reflects exactly, whatever the sample; with a unit normal the
      reflected direction has the normal component reversed. */
  lemma PlainMetalReflects(sheen: Color, ray: Ray, obs: Observation, sample: Vec3, normalize: Vec3 -> Vec3)
    requires NormSquared(obs.normal) == 1.0
    ensures MetalScatter(NewMetal(sheen), ray, obs, sample, normalize).scattered.direction == Reflect(normalize(ray.direction), obs.normal)
    ensures Dot(MetalScatter(NewMetal(sheen), ray, obs, sample, normalize).scattered.direction, obs.normal) ==
      -Dot(normalize(ray.direction), obs.normal)
  {}

  datatype Dielectric = Dielectric(tint: Color, indexRefraction: real)

  /** `Dielectric(indexRefraction)`: an untinted (white) dielectric. */
  function NewDielectric(indexRefraction: real): (m: Dielectric)
    ensures m.tint == White && m.indexRefraction == indexRefraction
  {
    Dielectric(Color(1.0, 1.0, 1.0), indexRefraction)
  }

  function Pow5(x: real): real { x * x * x * x * x }

  /** The reflectance at normal incidence, `((1 - n) / (1 + n))^2`. */
  function R0(refraction: real): real
    requires refraction != -1.0
  {
    var q := (1.0 - refraction) / (1.0 + refraction);
    q * q
  }

  /** `Dielectric::reflectance`, Schlick's approximation
      `r0 + (1 - r0) (1 - cos)^5`. */
  function Reflectance(cosine: real, refraction: real): (r: real)
    requires refraction != -1.0
    ensures cosine == 1.0 ==> r == R0(refraction)
  {
    var r0 := R0(refraction);
    r0 + (1.0 - r0) * Pow5(1.0 - cosine)
  }

  lemma Pow5InUnit(x: real)
    requires 0.0 <= x <= 1.0
    ensures 0.0 <= Pow5(x) <= 1.0
  {
    MulNonNegative(x, x);
    MulNonNegative(1.0 - x, x);
    assert x * x <= x;
    MulNonNegative(x * x, x);
    MulNonNegative(1.0 - x, x * x);
    assert x * x * x <= x * x;
    MulNonNegative(x * x * x, x);
    MulNonNegative(1.0 - x, x * x * x);
    assert x * x * x * x <= x * x * x;
    MulNonNegative(x * x * x * x, x);
    MulNonNegative(1.0 - x, x * x * x * x);
  }

  /** For a positive refraction ratio `r0` lies in `[0, 1)`, and for a cosine in
      `[0, 1]` the reflectance lies between `r0` and 1. */
  lemma ReflectanceBounds(cosine: real, refraction: real)
    requires refraction > 0.0 && 0.0 <= cosine <= 1.0
    ensures 0.0 <= R0(refraction) < 1.0
    ensures R0(refraction) <= Reflectance(cosine, refraction) <= 1.0
  {
    var q := (1.0 - refraction) / (1.0 + refraction);
    assert -1.0 < q < 1.0 by {
      assert q * (1.0 + refraction) == 1.0 - refraction;
      if q >= 1.0 {
        MulNonNegative(q - 1.0, 1.0 + refraction);
      }
      if q <= -1.0 {
        MulNonNegative(-1.0 - q, 1.0 + refraction);
      }
    }
    SquareNonNegative(q);
    if q >= 0.0 { SquareIncreasing(q, 1.0); } else { SquareIncreasing(-q, 1.0); assert q * q == (-q) * (-q); }
    var r0 := R0(refraction);
    var p := Pow5(1.0 - cosine);
    Pow5InUnit(1.0 - cosine);
    MulNonNegative(1.0 - r0, p);
    MulNonNegative(1.0 - r0, 1.0 - p);
  }

  /** The refraction ratio: `1 / index` on a front-facing hit, `index` otherwise. A
      front-facing hit on index 0 divides by zero, which IEEE arithmetic makes positive
      infinity. It is the Rust ratio. */
  function RefractionRatio(m: Dielectric, frontFacing: bool): (ratio: ExtReal)
    ensures ratio == RustMaterials.Ratio(RustMaterials.Dielectric(m.indexRefraction), frontFacing)
    ensures ratio.PosInf? <==> frontFacing && m.indexRefraction == 0.0
    ensures frontFacing && ratio.Fin? ==> ratio.v * m.indexRefraction == 1.0
    ensures !frontFacing ==> ratio == Fin(m.indexRefraction)
  {
    if !frontFacing then Fin(m.indexRefraction)
    else if m.indexRefraction == 0.0 then PosInf
    else Fin(1.0 / m.indexRefraction)
  }

  /** The cosine `Dielectric::scatter` works with: measured against the reversed
      direction, capped at 1. */
  function CosTheta(unitDirection: Vec3, normal: Vec3): (cos: real)
    ensures cos <= 1.0
    ensures -Dot(unitDirection, normal) <= 1.0 ==> cos == -Dot(unitDirection, normal)
  {
    if -Dot(unitDirection, normal) < 1.0 then -Dot(unitDirection, normal) else 1.0
  }

  /** Refraction is impossible when `ratio * sin` exceeds 1. An infinite ratio times a
      sine exceeds 1 exactly when the sine has the infinity's sign; times a zero sine it
      is NaN, which compares false. */
  predicate CannotRefract(ratio: ExtReal, cos: real, sqrt: real -> real) {
    match ratio
    case Fin(r) => r * sqrt(1.0 - cos * cos) > 1.0
    case PosInf => sqrt(1.0 - cos * cos) > 0.0
    case NegInf => sqrt(1.0 - cos * cos) < 0.0
  }

  /** Whether `Dielectric::scatter` reflects: always when refraction is impossible,
      otherwise exactly when the reflectance exceeds the uniform sample `u`. For a
      ratio of -1 (`r0` is `2 / 0` squared, then `inf - inf`) and for an infinite ratio
      (`-inf / inf`) the reflectance is NaN, which never exceeds the sample. */
  predicate Reflects(m: Dielectric, ray: Ray, obs: Observation, u: real, sqrt: real -> real, normalize: Vec3 -> Vec3) {
    var ratio := RefractionRatio(m, obs.frontFacing);
    var cos := CosTheta(normalize(ray.direction), obs.normal);
    CannotRefract(ratio, cos, sqrt) || (ratio.Fin? && ratio.v != -1.0 && Reflectance(cos, ratio.v) > u)
  }

  /** `Dielectric::scatter`: always scatters, from the hit point, attenuated by the
      tint, towards the reflection or the refraction of the normalised direction as
      `Reflects` decides. Refracting with an infinite ratio scales a vector by
      infinity, which leaves the reals. */
  function DielectricScatter(m: Dielectric, ray: Ray, obs: Observation, u: real, sqrt: real -> real, normalize: Vec3 -> Vec3): (r: Computed<Pair>)
    ensures r.NotANumber? <==> !Reflects(m, ray, obs, u, sqrt, normalize) && !RefractionRatio(m, obs.frontFacing).Fin?
    ensures r.Value? ==> r.value.scattered.origin == obs.point && r.value.attenuation == m.tint
    ensures Reflects(m, ray, obs, u, sqrt, normalize) ==>
      r.Value? && r.value.scattered.direction == Reflect(normalize(ray.direction), obs.normal)
    ensures !Reflects(m, ray, obs, u, sqrt, normalize) && r.Value? ==>
      RefractionRatio(m, obs.frontFacing).Fin? && r.value.scattered.direction == Refract(normalize(ray.direction), obs.normal, RefractionRatio(m, obs.frontFacing).v, sqrt)
  {
    var unit := normalize(ray.direction);
    if Reflects(m, ray, obs, u, sqrt, normalize) then Value(Pair(Ray(obs.point, Reflect(unit, obs.normal)), m.tint))
    else
      match RefractionRatio(m, obs.frontFacing)
      case Fin(ratio) => Value(Pair(Ray(obs.point, Refract(unit, obs.normal, ratio, sqrt)), m.tint))
      case _ => NotANumber
  }

  /** When refraction is impossible the outcome does not depend on the sample. */
  lemma TotalReflectionIgnoresSample(m: Dielectric, ray: Ray, obs: Observation, u: real, v: real, sqrt: real -> real, normalize: Vec3 -> Vec3)
    requires CannotRefract(RefractionRatio(m, obs.frontFacing), CosTheta(normalize(ray.direction), obs.normal), sqrt)
    ensures DielectricScatter(m, ray, obs, u, sqrt, normalize) == DielectricScatter(m, ray, obs, v, sqrt, normalize)
    ensures DielectricScatter(m, ray, obs, u, sqrt, normalize).Value?
    ensures DielectricScatter(m, ray, obs, u, sqrt, normalize).value.scattered.direction == Reflect(normalize(ray.direction), obs.normal)
  {}

  /** Where the reflectance is NaN (a ratio of -1, or the infinite ratio of entering
      index 0) the sample is never consulted: only total internal reflection decides. */
  lemma NaNReflectanceIgnoresSample(m: Dielectric, ray: Ray, obs: Observation, u: real, v: real, sqrt: real -> real, normalize: Vec3 -> Vec3)
    requires RefractionRatio(m, obs.frontFacing) == Fin(-1.0) || (m.indexRefraction == 0.0 && obs.frontFacing)
    ensures Reflects(m, ray, obs, u, sqrt, normalize) <==>
      CannotRefract(RefractionRatio(m, obs.frontFacing), CosTheta(normalize(ray.direction), obs.normal), sqrt)
    ensures DielectricScatter(m, ray, obs, u, sqrt, normalize) == DielectricScatter(m, ray, obs, v, sqrt, normalize)
  {}

  /** A front-facing hit on index 0 gives a direction exactly when the sine is
      positive, and that direction is the mirror image. */
  lemma ZeroIndexEntering(m: Dielectric, ray: Ray, obs: Observation, u: real, sqrt: real -> real, normalize: Vec3 -> Vec3)
    requires m.indexRefraction == 0.0 && obs.frontFacing
    ensures var cos := CosTheta(normalize(ray.direction), obs.normal);
      DielectricScatter(m, ray, obs, u, sqrt, normalize).Value? <==> sqrt(1.0 - cos * cos) > 0.0
    ensures DielectricScatter(m, ray, obs, u, sqrt, normalize).Value? ==>
      DielectricScatter(m, ray, obs, u, sqrt, normalize).value.scattered.direction == Reflect(normalize(ray.direction), obs.normal)
  {}

  /** When refraction is possible, a sample at or above 1 always refracts: the
      reflectance of a positive ratio and a cosine in `[0, 1]` never exceeds 1. */
  lemma HighSampleRefracts(m: Dielectric, ray: Ray, obs: Observation, u: real, sqrt: real -> real, normalize: Vec3 -> Vec3)
    requires m.indexRefraction > 0.0 && u >= 1.0
    requires 0.0 <= CosTheta(normalize(ray.direction), obs.normal)
    requires !CannotRefract(RefractionRatio(m, obs.frontFacing), CosTheta(normalize(ray.direction), obs.normal), sqrt)
    ensures DielectricScatter(m, ray, obs, u, sqrt, normalize).Value?
    ensures DielectricScatter(m, ray, obs, u, sqrt, normalize).value.scattered.direction ==
      Refract(normalize(ray.direction), obs.normal, RefractionRatio(m, obs.frontFacing).v, sqrt)
  {
    var ratio := RefractionRatio(m, obs.frontFacing).v;
    assert ratio > 0.0 by {
      if obs.frontFacing && ratio <= 0.0 {
        MulNonNegative(-ratio, m.indexRefraction);
      }
    }
    ReflectanceBounds(CosTheta(normalize(ray.direction), obs.normal), ratio);
  }
}
