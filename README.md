# GammaM limiter, modelled in Dafny

This project models `Foam::GammaMLimiter` from libSchemes. It is the limiter of
the GammaM bounded NVD/TVD convection scheme. The limiter is built from two
coefficients: a boundedness threshold `k` and a fallback weight `l`. For each
face it maps the normalised face value `phict` to a blending weight. That
weight says how much of the central (high-order) interpolation the host
scheme mixes with the upwind one.

Files:

- `GammaM.dfy`, module `GammaM`: the model. `Params` holds the stored
  coefficients. `Construct` is the constructor, with its range check on `k` and
  the floor `k := max(k, SMALL)`. It returns `Ok(Params)` or
  `Err(InvalidConfiguration(k, 0, 1))`. `Limiter` is the piecewise map. It
  tests the branches in the source's order. A path that leaves the block at
  lines 95-105 without returning goes on to the test at line 107, as in the
  source. The one `assert false` is the missing return after line 114, and it
  is proved unreachable. `FaceLimiter` is
  the per-face entry point: it takes the normalised-value provider as a
  function parameter.
- `GammaMProperties.dfy`, module `GammaMProperties`: the specification of the
  map as a four-row branch table (`InBranch`, `TableWeight`), and lemmas
  relating `Limiter` to it. They cover partition of the real line, reachability
  of each branch, bounds, the effect of the floor, monotonicity and continuity.
- `Scalar.dfy`, module `Scalar`: OpenFOAM's scalar `max` and `min`, `Abs`
  (the absolute value used in the continuity definitions), and small facts
  about real division that the proofs use.

All arithmetic is over mathematical `real`. `Small` is OpenFOAM's
double-precision `SMALL`, 1e-15. The proofs use `0 < Small < 1`; the worked
examples (`HalfThresholdExamples`) also use `Small <= 0.5`.

Points worth knowing about the code:

- The quotient `phict / k` at GammaM/GammaM.H:113 is safe because of its own
  branch condition: `0 < phict < k` forces `k > 0`. So `Limiter` has no
  precondition. It is not the floor on `k` that prevents a division by zero.
  The floor makes the branch table a partition (`BranchesDisjointIffValid`).
  For every accepted `k` it changes the result only for `0 < phict < Small`
  (`FloorAffectsOnlyBelowSmall`). For `k = 0` it does change the result on
  that whole band (`FloorChangesOnlyTinyValues`).
- The constructor accepts `k = 1`; the plateau `k <= phict < 1` is then empty
  (`BranchReachableIff`), and the map is still total.
- The weight is not always in [0, 1]. For `phict <= 0` the code returns `l`
  without clamping it. The bound holds when `l` is in [0, 1].

## Model

| member | source | states |
|---|---|---|
| `GammaM.Construct` | GammaM/GammaM.H:63-77 | construction succeeds exactly when `0 <= k <= 1`; otherwise the error carries the offending `k` and the range [0, 1]; on success `l` is kept unchanged and the stored `k` is `max(k, SMALL)`, so `0 < k <= 1` |
| `GammaM.Limiter` | GammaM/GammaM.H:95-114 | for every real `phict` a branch returns; the weight is in [0, 1] except when `phict <= 0`, where it is `l`; it is in [0, 1] whenever `l` is |
| `GammaM.FaceLimiter` | GammaM/GammaM.H:79-93 | the per-face weight obeys the same bounds as the limiter: in [0, 1], except that it is `l` when the provider's `phict` is `<= 0`; in [0, 1] whenever `l` is |
| `GammaMProperties.FaceLimiterUsesOnlyPhict` | GammaM/GammaM.H:79-93 | the per-face weight is the limiter applied to the provider's `phict` on the face data, and it is the same for every `cdWeight` |
| `GammaMProperties.LimiterFollowsTable` | GammaM/GammaM.H:95-114 | for a constructed limiter the result is exactly the row weight: 1 for `phict >= 1`, `l` for `phict <= 0`, 1 for `k <= phict < 1`, `phict / k` for `0 < phict < k` |
| `GammaMProperties.RampIsUnclamped` | GammaM/GammaM.H:111-114 | on `0 < phict < k` the clamp `min(max(phict/k, 0), 1)` changes nothing: the weight is `phict / k`, strictly between 0 and 1 |
| `GammaMProperties.EveryPhictHasBranch` | GammaM/GammaM.H:95-114 | no gap: every real `phict` satisfies some branch condition, whatever `k` is |
| `GammaMProperties.BranchesDisjointIffValid` | GammaM/GammaM.H:68-114 | the four branch conditions overlap nowhere exactly when `0 < k <= 1`, the range that construction guarantees |
| `GammaMProperties.ExactlyOneBranch` | GammaM/GammaM.H:95-114 | for a constructed limiter every `phict` satisfies exactly one branch condition |
| `GammaMProperties.BranchReachableIff` | GammaM/GammaM.H:95-114 | for a constructed limiter each branch is reached by some `phict`, except the plateau, which is reached exactly when `k < 1` |
| `GammaMProperties.ZeroCoefficientIsFloored` | GammaM/GammaM.H:65-76 | a raw `k = 0` is accepted and stored as `SMALL > 0` |
| `GammaMProperties.ConstructedLimiterBounded` | GammaM/GammaM.H:63-114 | a limiter built from any accepted `k` and an `l` in [0, 1] gives weights in [0, 1] for every `phict` |
| `GammaMProperties.FloorChangesOnlyTinyValues` | GammaM/GammaM.H:76 | the weights with `k = 0` and with `k = SMALL` differ exactly on `0 < phict < SMALL` |
| `GammaMProperties.FloorAffectsOnlyBelowSmall` | GammaM/GammaM.H:76 | for every accepted raw `k`, the floored and the unfloored limiter agree on every `phict` outside `0 < phict < SMALL` |
| `GammaMProperties.HalfThresholdExamples` | GammaM/GammaM.H:95-114 | with `k = 0.5, l = 0.2`: `phict` 1.2, -0.3, 0.5, 0.7, 0.25 and 0 give 1, 0.2, 1, 1, 0.5 and 0.2 |
| `GammaMProperties.NonDecreasingAboveZero` | GammaM/GammaM.H:107-114 | on `phict > 0` the weight never decreases as `phict` grows |
| `GammaMProperties.DipAboveZero` | GammaM/GammaM.H:101-113 | when `l > 0`, some `phict > 0` gets a weight below the weight `l` at `phict = 0` |
| `GammaMProperties.NonDecreasingWithNonPositiveFallback` | GammaM/GammaM.H:95-114 | when `l <= 0`, the weight never decreases as `phict` grows, over the whole real line |
| `GammaMProperties.NonDecreasingIff` | GammaM/GammaM.H:95-114 | the weight is non-decreasing on the whole real line exactly when `l <= 0` |
| `GammaMProperties.TendsToZeroAboveZero` | GammaM/GammaM.H:111-113 | as `phict` tends to 0 from above, the weight tends to 0 |
| `GammaMProperties.TendsToOneBelowThreshold` | GammaM/GammaM.H:107-113 | as `phict` tends to `k` from below, the weight tends to 1 |
| `GammaMProperties.RampClose` | GammaM/GammaM.H:111-113 | on the ramp, a `phict` within `eps * k` of `c` gets a weight within `eps` of `c / k` |
| `GammaMProperties.ContinuousAtThreshold` | GammaM/GammaM.H:107-113 | the weight is continuous at `phict = k`, where the ramp meets the plateau |
| `GammaMProperties.ContinuousInsideRamp` | GammaM/GammaM.H:111-113 | the weight is continuous at every point of `0 < phict < k` |
| `GammaMProperties.ContinuousWhereConstant` | GammaM/GammaM.H:95-110 | the weight is continuous below 0, where it is `l`, and above `k`, where it is 1 |
| `GammaMProperties.JumpAtZero` | GammaM/GammaM.H:101-113 | when `l != 0`, every neighbourhood of 0 holds a `phict` whose weight is at least `abs(l)/2` away from `l` |
| `GammaMProperties.ContinuousAtZeroIff` | GammaM/GammaM.H:101-113 | the weight is continuous at `phict = 0` exactly when `l = 0` |
| `GammaMProperties.ContinuityIff` | GammaM/GammaM.H:95-114 | the weight is continuous at `x0` exactly when `x0 != 0` or `l = 0` |

## Left out

- Reading `k` and `l` from the `Istream` (`readScalar`): `Construct` takes the two reals directly. This is input parsing.
- `FatalIOErrorIn ... exit(FatalIOError)`: modelled as the `Err(InvalidConfiguration(...))` result. The message text and the process exit are I/O.
- `LimiterFunc::phict` comes from the template base class. It is not part of this model. `FaceLimiter` takes it as a function parameter, and `Limiter` takes `phict` directly. The field and gradient types are type parameters.
- IEEE floating point: rounding of `phict / k` is not modelled, and neither is NaN. With a NaN `phict` no C++ branch fires and the function falls off the end.
- The exact value of `SMALL` plays no part in the proofs beyond `0 < SMALL < 1`, and `SMALL <= 0.5` for the worked examples.
- The host `LimitedScheme` and the iteration over mesh faces are not part of this model.
