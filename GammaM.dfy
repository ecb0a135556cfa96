/*
 * The GammaM limiter of an NVD/TVD convection scheme (GammaM/GammaM.H):
 * two coefficients fixed at construction, and a piecewise map from the
 * normalised face value phict to a blending weight.
 *
 * Everything is over mathematical reals: floating-point rounding of the
 * quotient and NaN inputs are not modelled.
 */
module GammaM {
  import opened Scalar

  /**
   * OpenFOAM's double-precision SMALL (1.0e-15). The proofs use 0 < Small < 1;
   * the worked examples also use Small <= 0.5.
   */
  const Small: real := 0.000000000000001

  /** The admissible range of the raw coefficient k, as reported in the error. */
  const KLower: real := 0.0
  const KUpper: real := 1.0

  /** The two stored coefficients: the threshold k and the fallback weight l. */
  datatype Params = Params(k: real, l: real)

  /** The one configuration error: the offending coefficient and the range it should lie in. */
  datatype ConfigError = InvalidConfiguration(coefficient: real, lower: real, upper: real)

  datatype Result<T> = Ok(value: T) | Err(error: ConfigError)

  /** What holds of every limiter that construction lets into existence. */
  predicate Valid(p: Params)
  {
    0.0 < p.k <= 1.0
  }

  /**
   * The constructor: reads k and l, refuses k outside [0, 1] (no limiter is
   * produced), and then raises k to at least Small. l is kept as given.
   */
  function Construct(kRaw: real, lRaw: real): (r: Result<Params>)
    ensures r.Ok? <==> KLower <= kRaw <= KUpper
    ensures r.Err? ==> r.error == InvalidConfiguration(kRaw, KLower, KUpper)
    ensures r.Ok? ==> Valid(r.value) && r.value.l == lRaw
    ensures r.Ok? ==> kRaw <= r.value.k && Small <= r.value.k
    ensures r.Ok? ==> r.value.k == kRaw || r.value.k == Small
  {
    if kRaw < KLower || kRaw > KUpper then
      Err(InvalidConfiguration(kRaw, KLower, KUpper))
    else
      Ok(Params(Max(kRaw, Small), lRaw))
  }

  /**
   * The limiter map from phict to the blending weight, in the order the
   * branches are tested. The block testing phict <= 0 || phict >= 1 either
   * returns or, when neither inner test holds, goes on to the plateau test,
   * as the source does. The `assert false` is the missing return after the
   * ramp test: for every real phict one of the returns is reached. The
   * quotient is guarded by its own branch condition (0 < phict < k forces
   * k > 0), so no precondition on k is needed.
   */
  function Limiter(p: Params, phict: real): (r: real)
    ensures 0.0 <= r <= 1.0 || (phict <= 0.0 && r == p.l)
    ensures 0.0 <= p.l <= 1.0 ==> 0.0 <= r <= 1.0
  {
    var outside := phict <= 0.0 || phict >= 1.0;
    if outside && phict >= 1.0 then 1.0
    else if outside && phict <= 0.0 then p.l
    else if phict < 1.0 && phict >= p.k then 1.0
    else if phict < p.k && phict > 0.0 then Min(Max(phict / p.k, 0.0), 1.0)
    else assert false; 0.0
  }

  /** A direction vector of the mesh; its components are never inspected here. */
  datatype Vector = Vector(x: real, y: real, z: real)

  /**
   * The limiter as the host scheme calls it, once per face: phict is obtained
   * from the normalised-value provider on the face data verbatim and mapped
   * by Limiter. The central-differencing weight takes no part.
   */
  function FaceLimiter<PhiType, GradPhiType>(
    p: Params,
    phictOf: (real, PhiType, PhiType, GradPhiType, GradPhiType, Vector) -> real,
    cdWeight: real,
    faceFlux: real,
    phiP: PhiType,
    phiN: PhiType,
    gradcP: GradPhiType,
    gradcN: GradPhiType,
    d: Vector
  ): (r: real)
    ensures 0.0 <= r <= 1.0 || (phictOf(faceFlux, phiP, phiN, gradcP, gradcN, d) <= 0.0 && r == p.l)
    ensures 0.0 <= p.l <= 1.0 ==> 0.0 <= r <= 1.0
  {
    var phict := phictOf(faceFlux, phiP, phiN, gradcP, gradcN, d);
    Limiter(p, phict)
  }
}
