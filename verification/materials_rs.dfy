/** src/material: the Rust materials. A material turns a hit into a scattered ray and
    an attenuation, or absorbs the ray. Random samples are parameters; `normalize`,
    `sqrt` and the vector `reflect` of the algebra module are oracles. */
module RustMaterials {
  import opened ExtReals
  import opened Wrappers
  import opened Vectors
  import opened Types
  import opened Colors
  import opened Geometry
  import SphereCpp

  /** `Scatter`: the scattered ray and the colour it is attenuated by. */
  datatype Scatter = Scatter(scattered: Ray, attenuation: Color)

  /** `NEAR_ZERO_TOLERANCE` of src/material/lambertian.rs. */
  const NearZeroTolerance: real := 0.00000001

  /** The shared fallback: a candidate direction whose squared length is below `tol` is
      replaced by the normal. The result is either the normal or a candidate that is
      not near zero. */
  function Fallback(candidate: Vec3, normal: Vec3, tol: real): (d: Vec3)
    ensures NormSquared(candidate) < tol ==> d == normal
    ensures NormSquared(candidate) >= tol ==> d == candidate
    ensures d == normal || NormSquared(d) >= tol
  {
    if NormSquared(candidate) < tol then normal else candidate
  }

  /** A diffuse bounce: from the hit point towards `normal + sample` (with the
      fallback), attenuated by the albedo. */
  function Diffuse(albedo: Color, c: Collision, sample: Vec3, tol: real): (s: Scatter)
    ensures s.scattered.origin == c.point && s.attenuation == albedo
    ensures s.scattered.direction == c.normal || s.scattered.direction == Add(c.normal, sample)
    ensures s.scattered.direction == c.normal || NormSquared(s.scattered.direction) >= tol
  {
    Scatter(Ray(c.point, Fallback(Add(c.normal, sample), c.normal, tol)), albedo)
  }

  /** `Lambertian::scatter` of src/material/lambertian.rs: always scatters, with the
      unit-vector sample `sample`. */
  function LambertianScatter(albedo: Color, c: Collision, sample: Vec3): (r: Option<Scatter>)
    ensures r.Some?
    ensures r.value.scattered.origin == c.point && r.value.attenuation == albedo
    ensures NormSquared(Add(c.normal, sample)) < NearZeroTolerance ==> r.value.scattered.direction == c.normal
    ensures NormSquared(Add(c.normal, sample)) >= NearZeroTolerance ==> r.value.scattered.direction == Add(c.normal, sample)
  {
    Some(Diffuse(albedo, c, sample, NearZeroTolerance))
  }

  datatype LambertianProb = LambertianProb(albedo: Color, probability: real)

  /** `LambertianProb::new`: the assertion that the probability lies in `[0, 1]`; a
      failed assertion is `None`. */
  function NewLambertianProb(albedo: Color, probability: real): (r: Option<LambertianProb>)
    ensures r.Some? <==> 0.0 <= probability <= 1.0
    ensures r.Some? ==> r.value.albedo == albedo && r.value.probability == probability
  {
    if Contains(Range(Fin(0.0), Fin(1.0)), probability) then Some(LambertianProb(albedo, probability)) else None
  }

  /** `LambertianProb::scatter`: absorbs exactly when the uniform sample `u` is below
      the probability, and otherwise bounces like `Lambertian`. */
  function LambertianProbScatter(m: LambertianProb, c: Collision, u: real, sample: Vec3): (r: Option<Scatter>)
    ensures r.None? <==> u < m.probability
    ensures r.Some? ==> r == LambertianScatter(m.albedo, c, sample)
  {
    if u < m.probability then None
    else Some(Diffuse(m.albedo, c, sample, NearZeroTolerance))
  }

  /** With the uniform sample drawn from `[0, 1)`, probability 0 never absorbs and
      probability 1 always does. */
  lemma ProbabilityExtremes(albedo: Color, c: Collision, u: real, sample: Vec3)
    requires 0.0 <= u < 1.0
    ensures NewLambertianProb(albedo, 0.0).Some? && LambertianProbScatter(NewLambertianProb(albedo, 0.0).value, c, u, sample).Some?
    ensures NewLambertianProb(albedo, 1.0).Some? && LambertianProbScatter(NewLambertianProb(albedo, 1.0).value, c, u, sample).None?
  {}

  /** `LambertianApproximation::scatter`: the same bounce with a sample from the
      hemisphere around the normal. */
  function LambertianApproximationScatter(albedo: Color, c: Collision, hemisphereSample: Vec3): (r: Option<Scatter>)
    ensures r.Some? && r == LambertianScatter(albedo, c, hemisphereSample)
  {
    Some(Diffuse(albedo, c, hemisphereSample, NearZeroTolerance))
  }

  /** `Lambertian::scatter` of src/material/diffuse.rs: the same bounce with the
      fallback threshold `ZERO_TOL` (`tol`). */
  function DiffuseLambertianScatter(albedo: Color, c: Collision, sample: Vec3, tol: real): (r: Option<Scatter>)
    ensures r.Some? && r.value.scattered.origin == c.point && r.value.attenuation == albedo
    ensures NormSquared(Add(c.normal, sample)) < tol ==> r.value.scattered.direction == c.normal
    ensures NormSquared(Add(c.normal, sample)) >= tol ==> r.value.scattered.direction == Add(c.normal, sample)
  {
    Some(Diffuse(albedo, c, sample, tol))
  }

  /** The two Lambertian materials differ only in their fallback threshold. */
  lemma LambertiansAgree(albedo: Color, c: Collision, sample: Vec3)
    ensures DiffuseLambertianScatter(albedo, c, sample, NearZeroTolerance) == LambertianScatter(albedo, c, sample)
  {}

  /** The probability with which `Glossy` reflects: one minus the absolute cosine
      between the normalised direction and the normal. */
  function ReflectionProbability(direction: Vec3, normal: Vec3, normalize: Vec3 -> Vec3): real {
    1.0 - Abs(Dot(normalize(direction), normal))
  }

  /** `Glossy::scatter`: reflects (`reflect` is an oracle) exactly when the uniform
      sample `u` is below the reflection probability, otherwise bounces diffusely; the
      fallback applies to either candidate. */
  function GlossyScatter(albedo: Color, ray: Ray, c: Collision, u: real, sample: Vec3, tol: real,
                         normalize: Vec3 -> Vec3, reflect: (Vec3, Vec3) -> Vec3): (r: Option<Scatter>)
    ensures r.Some? && r.value.scattered.origin == c.point && r.value.attenuation == albedo
    ensures var candidate := if u < ReflectionProbability(ray.direction, c.normal, normalize)
                             then reflect(ray.direction, c.normal) else Add(c.normal, sample);
      r.value.scattered.direction == Fallback(candidate, c.normal, tol)
  {
    var candidate := if u < ReflectionProbability(ray.direction, c.normal, normalize)
                     then reflect(ray.direction, c.normal) else Add(c.normal, sample);
    Some(Scatter(Ray(c.point, Fallback(candidate, c.normal, tol)), albedo))
  }

  /** A ray that meets the surface head-on (unit cosine) never reflects off `Glossy`,
      whatever the sample in `[0, 1)`: it bounces like the diffuse `Lambertian`. */
  lemma GlossyHeadOnIsDiffuse(albedo: Color, ray: Ray, c: Collision, u: real, sample: Vec3, tol: real,
                              normalize: Vec3 -> Vec3, reflect: (Vec3, Vec3) -> Vec3)
    requires Abs(Dot(normalize(ray.direction), c.normal)) == 1.0 && 0.0 <= u
    ensures GlossyScatter(albedo, ray, c, u, sample, tol, normalize, reflect) == DiffuseLambertianScatter(albedo, c, sample, tol)
  {}

  datatype Metal = Metal(albedo: Color, fuzziness: real)

  /** `Metal::new`: the assertion that the fuzziness is not negative; a failed assertion
      is `None`. */
  function NewMetal(albedo: Color, fuzziness: real): (r: Option<Metal>)
    ensures r.Some? <==> fuzziness >= 0.0
    ensures r.Some? ==> r.value == Metal(albedo, fuzziness)
  {
    if fuzziness >= 0.0 then Some(Metal(albedo, fuzziness)) else None
  }

  /** `Metal::polished`: the metal with no fuzz, which `new` accepts. */
  function Polished(albedo: Color): (m: Metal)
    ensures m.fuzziness == 0.0 && m.albedo == albedo
    ensures NewMetal(albedo, 0.0) == Some(m)
  {
    Metal(albedo, 0.0)
  }

  /** `Metal::scatter`: always scatters, from the hit point, towards the reflection
      perturbed by `fuzziness` times the unit-vector sample. */
  function MetalScatter(m: Metal, ray: Ray, c: Collision, sample: Vec3, reflect: (Vec3, Vec3) -> Vec3): (r: Option<Scatter>)
    ensures r.Some? && r.value.scattered.origin == c.point && r.value.attenuation == m.albedo
    ensures Sub(r.value.scattered.direction, reflect(ray.direction, c.normal)) == Scale(m.fuzziness, sample)
  {
    Some(Scatter(Ray(c.point, Add(reflect(ray.direction, c.normal), Scale(m.fuzziness, sample))), m.albedo))
  }

  /** A polished metal reflects exactly, whatever the sample. */
  lemma PolishedReflectsExactly(albedo: Color, ray: Ray, c: Collision, sample: Vec3, reflect: (Vec3, Vec3) -> Vec3)
    ensures MetalScatter(Polished(albedo), ray, c, sample, reflect).value.scattered.direction == reflect(ray.direction, c.normal)
  {}

  datatype Dielectric = Dielectric(refractionIndex: real)

  /** The ratio of refraction indices: `1 / index` on entering (a front-facing hit) and
      `index` on leaving. Entering a medium of index 0 divides by zero, which IEEE
      arithmetic makes positive infinity (the model has no negative zero). */
  function Ratio(m: Dielectric, frontFacing: bool): (ratio: ExtReal)
    ensures ratio.PosInf? <==> frontFacing && m.refractionIndex == 0.0
    ensures !ratio.NegInf?
    ensures frontFacing && ratio.Fin? ==> ratio.v * m.refractionIndex == 1.0
    ensures !frontFacing ==> ratio == Fin(m.refractionIndex)
  {
    if !frontFacing then Fin(m.refractionIndex)
    else if m.refractionIndex == 0.0 then PosInf
    else Fin(1.0 / m.refractionIndex)
  }

  /** `Dielectric::reflect`: the mirror image `v - 2 (v . n) n`. */
  function Reflect(v: Vec3, n: Vec3): Vec3 {
    Sub(v, Scale(2.0 * Dot(v, n), n))
  }

  lemma DotSub(a: Vec3, b: Vec3, n: Vec3)
    ensures Dot(Sub(a, b), n) == Dot(a, n) - Dot(b, n)
  {}

  lemma DotScaleLeft(s: real, a: Vec3, n: Vec3)
    ensures Dot(Scale(s, a), n) == s * Dot(a, n)
  {
    assert (s * a.x) * n.x + (s * a.y) * n.y + (s * a.z) * n.z == s * (a.x * n.x + a.y * n.y + a.z * n.z);
  }

  /** Reflecting about a unit normal reverses the component along the normal, and
      reflecting twice gives the vector back. */
  lemma ReflectInvolution(v: Vec3, n: Vec3)
    requires NormSquared(n) == 1.0
    ensures Dot(Reflect(v, n), n) == -Dot(v, n)
    ensures Reflect(Reflect(v, n), n) == v
  {
    var k := 2.0 * Dot(v, n);
    DotSub(v, Scale(k, n), n);
    DotScaleLeft(k, n, n);
    assert Dot(Reflect(v, n), n) == -Dot(v, n);
    var r := Reflect(v, n);
    assert Reflect(r, n) == Sub(r, Scale(-k, n));
  }

  /** The cosine `Dielectric::refract` works with: `incoming . normal`, capped at 1. */
  function CosTheta(incoming: Vec3, normal: Vec3): (cos: real)
    ensures cos <= 1.0
    ensures Dot(incoming, normal) <= 1.0 ==> cos == Dot(incoming, normal)
  {
    if Dot(incoming, normal) < 1.0 then Dot(incoming, normal) else 1.0
  }

  function SinTheta(cos: real, sqrt: real -> real): real {
    sqrt(1.0 - cos * cos)
  }

  /** Refraction is impossible when `ratio * sin` exceeds 1 (total internal
      reflection). */
  predicate CannotRefract(ratio: real, sin: real) {
    ratio * sin > 1.0
  }

  /** `Dielectric::refract`. When refraction is impossible the mirror image is
      returned; otherwise the refracted direction is the part perpendicular to the
      normal, scaled by the ratio, minus a part along the normal. */
  function Refract(incoming: Vec3, normal: Vec3, ratio: real, sqrt: real -> real): (d: Vec3)
    ensures CannotRefract(ratio, SinTheta(CosTheta(incoming, normal), sqrt)) ==> d == Reflect(incoming, normal)
    ensures !CannotRefract(ratio, SinTheta(CosTheta(incoming, normal), sqrt)) ==>
      exists k :: d == Sub(Scale(ratio, Sub(incoming, Scale(CosTheta(incoming, normal), normal))), Scale(k, normal))
  {
    var cos := CosTheta(incoming, normal);
    var sin := SinTheta(cos, sqrt);
    if CannotRefract(ratio, sin) then Reflect(incoming, normal)
    else
      var perpendicular := Scale(ratio, Sub(incoming, Scale(cos, normal)));
      var k := sqrt(Abs(1.0 - NormSquared(perpendicular)));
      Sub(perpendicular, Scale(k, normal))
  }

  /** For a cosine of at most 1 in absolute value, the sine lies in `[0, 1]`. */
  lemma SineInUnit(c: real, sqrt: real -> real)
    requires SphereCpp.IsSqrt(sqrt) && -1.0 <= c <= 1.0
    ensures 0.0 <= SinTheta(c, sqrt) <= 1.0
  {
    MulNonNegative(1.0 - c, 1.0 + c);
    assert (1.0 - c) * (1.0 + c) == 1.0 - c * c;
    SquareNonNegative(c);
    var s := SinTheta(c, sqrt);
    assert s * s == 1.0 - c * c;
    if s > 1.0 {
      SquareIncreasing(1.0, s);
    }
  }

  /** Entering a medium at least as dense (a front-facing hit, index at least 1) never
      meets total internal reflection when the cosine is a true cosine: the refracted
      direction is computed, not the mirror image. */
  lemma EnteringRefracts(m: Dielectric, incoming: Vec3, normal: Vec3, sqrt: real -> real)
    requires SphereCpp.IsSqrt(sqrt) && m.refractionIndex >= 1.0
    requires -1.0 <= Dot(incoming, normal) <= 1.0
    ensures Ratio(m, true).Fin? && !CannotRefract(Ratio(m, true).v, SinTheta(CosTheta(incoming, normal), sqrt))
  {
    var cos := CosTheta(incoming, normal);
    SineInUnit(cos, sqrt);
    var ratio := Ratio(m, true).v;
    var sin := SinTheta(cos, sqrt);
    assert 0.0 < ratio <= 1.0 by {
      assert ratio * m.refractionIndex == 1.0;
      if ratio <= 0.0 {
        MulNonNegative(-ratio, m.refractionIndex);
      }
      if ratio > 1.0 {
        MulPositive(ratio - 1.0, m.refractionIndex);
      }
    }
    MulNonNegative(1.0 - ratio, sin);
    assert ratio * sin <= sin;
  }

  /** `Dielectric::scatter`: always scatters, from the hit point, unattenuated
      (`WHITE`), along the normalised refraction of the normalised direction. With the
      infinite ratio of entering a medium of index 0, `ratio * sin` exceeds 1 for every
      positive sine and the mirror image is taken; at a zero sine the product is NaN,
      the test fails, and the refracted direction is infinity times a vector. */
  function DielectricScatter(m: Dielectric, ray: Ray, c: Collision, sqrt: real -> real, normalize: Vec3 -> Vec3): (r: Computed<Option<Scatter>>)
    ensures r.NotANumber? <==>
      Ratio(m, c.isFrontFacing).PosInf? && SinTheta(CosTheta(normalize(ray.direction), normalize(c.normal)), sqrt) <= 0.0
    ensures r.Value? ==> r.value.Some? && r.value.value.scattered.origin == c.point && r.value.value.attenuation == White
    ensures r.Value? && Ratio(m, c.isFrontFacing).Fin? ==>
      r.value.value.scattered.direction == normalize(Refract(normalize(ray.direction), normalize(c.normal), Ratio(m, c.isFrontFacing).v, sqrt))
    ensures r.Value? && Ratio(m, c.isFrontFacing).PosInf? ==>
      r.value.value.scattered.direction == normalize(Reflect(normalize(ray.direction), normalize(c.normal)))
  {
    var unit := normalize(ray.direction);
    var n := normalize(c.normal);
    match Ratio(m, c.isFrontFacing)
    case Fin(ratio) => Value(Some(Scatter(Ray(c.point, normalize(Refract(unit, n, ratio, sqrt))), White)))
    case _ =>
      if SinTheta(CosTheta(unit, n), sqrt) > 0.0 then Value(Some(Scatter(Ray(c.point, normalize(Reflect(unit, n))), White)))
      else NotANumber
  }

  /** Entering a medium of index 0 at a positive sine scatters exactly as entering any
      medium whose finite ratio meets total internal reflection there: both take the
      mirror image. */
  lemma ZeroIndexActsAsTotalReflection(m: Dielectric, m': Dielectric, ray: Ray, c: Collision, sqrt: real -> real, normalize: Vec3 -> Vec3)
    requires m.refractionIndex == 0.0 && c.isFrontFacing
    requires SinTheta(CosTheta(normalize(ray.direction), normalize(c.normal)), sqrt) > 0.0
    requires Ratio(m', true).Fin?
    requires CannotRefract(Ratio(m', true).v, SinTheta(CosTheta(normalize(ray.direction), normalize(c.normal)), sqrt))
    ensures DielectricScatter(m, ray, c, sqrt, normalize).Value?
    ensures DielectricScatter(m, ray, c, sqrt, normalize) == DielectricScatter(m', ray, c, sqrt, normalize)
  {}
}
