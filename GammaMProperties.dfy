/*
 * Properties of the GammaM limiter: the branch table it implements, the
 * partition of the real line by that table, its bounds, its monotonicity and
 * its continuity, and what the floor on k changes.
 */
module GammaMProperties {
  import opened Scalar
  import opened GammaM

  /** The four rows of the limiter's branch table. */
  datatype Branch = AtOrAboveOne | AtOrBelowZero | Plateau | Ramp

  /** The condition on phict under which a row applies. */
  predicate InBranch(p: Params, phict: real, b: Branch)
  {
    match b
    case AtOrAboveOne => phict >= 1.0
    case AtOrBelowZero => phict <= 0.0
    case Plateau => p.k <= phict < 1.0
    case Ramp => 0.0 < phict < p.k
  }

  /** The weight a row assigns: the ramp is the bare quotient, without the clamp. */
  function TableWeight(p: Params, b: Branch, phict: real): real
    requires InBranch(p, phict, b)
  {
    match b
    case AtOrAboveOne => 1.0
    case AtOrBelowZero => p.l
    case Plateau => 1.0
    case Ramp => phict / p.k
  }

  // ---------------------------------------------------------------- the table

  /** Given a constructed limiter, the result is exactly the weight of the row phict falls in. */
  lemma LimiterFollowsTable(p: Params, phict: real, b: Branch)
    requires Valid(p)
    requires InBranch(p, phict, b)
    ensures Limiter(p, phict) == TableWeight(p, b, phict)
  {
    if b == Ramp {
      RampQuotient(phict, p.k);
    }
  }

  /** Closed form of the ramp: for 0 < phict < k the clamp changes nothing and the weight is strictly inside (0, 1). */
  lemma RampIsUnclamped(p: Params, phict: real)
    requires Valid(p)
    requires 0.0 < phict < p.k
    ensures Limiter(p, phict) == phict / p.k
    ensures 0.0 < Limiter(p, phict) < 1.0
  {
    RampQuotient(phict, p.k);
  }

  /** No gap: every real phict falls in some row, whatever the coefficients. */
  lemma EveryPhictHasBranch(p: Params, phict: real)
    ensures exists b :: InBranch(p, phict, b)
  {
    if phict >= 1.0 {
      assert InBranch(p, phict, AtOrAboveOne);
    } else if phict <= 0.0 {
      assert InBranch(p, phict, AtOrBelowZero);
    } else if phict >= p.k {
      assert InBranch(p, phict, Plateau);
    } else {
      assert InBranch(p, phict, Ramp);
    }
  }

  /** No two rows apply to the same phict. */
  ghost predicate BranchesDisjoint(p: Params)
  {
    forall x, b, c :: InBranch(p, x, b) && InBranch(p, x, c) ==> b == c
  }

  /**
   * The rows overlap nowhere exactly when 0 < k <= 1: the range check and the
   * floor in the constructor are what make the table a partition.
   */
  lemma BranchesDisjointIffValid(p: Params)
    ensures BranchesDisjoint(p) <==> Valid(p)
  {
    if p.k <= 0.0 {
      assert InBranch(p, p.k, Plateau) && InBranch(p, p.k, AtOrBelowZero);
    } else if p.k > 1.0 {
      assert InBranch(p, 1.0, Ramp) && InBranch(p, 1.0, AtOrAboveOne);
    }
  }

  /** For a constructed limiter every phict falls in exactly one row. */
  lemma ExactlyOneBranch(p: Params, phict: real)
    requires Valid(p)
    ensures exists b :: InBranch(p, phict, b) && forall c :: InBranch(p, phict, c) ==> c == b
  {
    EveryPhictHasBranch(p, phict);
    BranchesDisjointIffValid(p);
    var b :| InBranch(p, phict, b);
    assert forall c :: InBranch(p, phict, c) ==> c == b;
  }

  /**
   * Every row but the plateau is reached for every constructed limiter; the
   * plateau k <= phict < 1 is reached exactly when k < 1 (it is empty for k = 1).
   */
  lemma BranchReachableIff(p: Params, b: Branch)
    requires Valid(p)
    ensures (exists x :: InBranch(p, x, b)) <==> (b == Plateau ==> p.k < 1.0)
  {
    match b
    case AtOrAboveOne => assert InBranch(p, 1.0, b);
    case AtOrBelowZero => assert InBranch(p, 0.0, b);
    case Plateau => if p.k < 1.0 { assert InBranch(p, p.k, b); }
    case Ramp => assert InBranch(p, p.k / 2.0, b);
  }

  /**
   * Per face, the central-differencing weight has no effect. The second
   * clause, that phict is passed on to Limiter unchanged, holds by the
   * definition of FaceLimiter.
   */
  lemma FaceLimiterUsesOnlyPhict<PhiType, GradPhiType>(
    p: Params,
    phictOf: (real, PhiType, PhiType, GradPhiType, GradPhiType, Vector) -> real,
    cdWeight1: real, cdWeight2: real, faceFlux: real,
    phiP: PhiType, phiN: PhiType, gradcP: GradPhiType, gradcN: GradPhiType, d: Vector)
    ensures FaceLimiter(p, phictOf, cdWeight1, faceFlux, phiP, phiN, gradcP, gradcN, d)
            == FaceLimiter(p, phictOf, cdWeight2, faceFlux, phiP, phiN, gradcP, gradcN, d)
    ensures FaceLimiter(p, phictOf, cdWeight1, faceFlux, phiP, phiN, gradcP, gradcN, d)
            == Limiter(p, phictOf(faceFlux, phiP, phiN, gradcP, gradcN, d))
  {
  }

  // ------------------------------------------------------------- construction

  /** A raw k of 0 is accepted and floored to Small, so the stored k is positive. */
  lemma ZeroCoefficientIsFloored(l: real)
    ensures Construct(0.0, l) == Ok(Params(Small, l))
    ensures Construct(0.0, l).value.k > 0.0
  {
  }

  /** A constructed limiter's weight lies in [0, 1] whenever the configured l does. */
  lemma ConstructedLimiterBounded(kRaw: real, l: real, phict: real)
    requires Construct(kRaw, l).Ok?
    requires 0.0 <= l <= 1.0
    ensures 0.0 <= Limiter(Construct(kRaw, l).value, phict) <= 1.0
  {
  }

  /**
   * The floor matters only on the band 0 < phict < Small: with the unfloored
   * k = 0 every phict in (0, 1) would get weight 1, with k = Small the band
   * below Small is a ramp.
   */
  lemma FloorChangesOnlyTinyValues(l: real, phict: real)
    ensures Limiter(Params(0.0, l), phict) == Limiter(Params(Small, l), phict)
            <==> !(0.0 < phict < Small)
  {
    if 0.0 < phict < Small {
      RampQuotient(phict, Small);
    }
  }

  /**
   * For every accepted k, the floored limiter agrees with the one built from
   * the raw k outside the band 0 < phict < Small.
   */
  lemma FloorAffectsOnlyBelowSmall(kRaw: real, l: real, phict: real)
    requires KLower <= kRaw <= KUpper
    requires !(0.0 < phict < Small)
    ensures Limiter(Construct(kRaw, l).value, phict) == Limiter(Params(kRaw, l), phict)
  {
  }

  /** The worked examples with k = 0.5 and l = 0.2. */
  lemma HalfThresholdExamples()
    ensures var p := Construct(0.5, 0.2).value;
      Limiter(p, 1.2) == 1.0 && Limiter(p, -0.3) == 0.2 && Limiter(p, 0.5) == 1.0 &&
      Limiter(p, 0.7) == 1.0 && Limiter(p, 0.25) == 0.5 && Limiter(p, 0.0) == 0.2
  {
  }

  // ------------------------------------------------------------- monotonicity

  ghost predicate NonDecreasing(p: Params)
  {
    forall a, b :: a <= b ==> Limiter(p, a) <= Limiter(p, b)
  }

  /** On phict > 0 the weight never decreases, whatever l is. */
  lemma NonDecreasingAboveZero(p: Params, a: real, b: real)
    requires Valid(p)
    requires 0.0 < a <= b
    ensures Limiter(p, a) <= Limiter(p, b)
  {
    if b < p.k {
      RampIsUnclamped(p, a);
      RampIsUnclamped(p, b);
      QuotientMonotone(a, b, p.k);
    }
  }

  /** With a fallback l of at most 0 the weight never decreases anywhere. */
  lemma NonDecreasingWithNonPositiveFallback(p: Params, a: real, b: real)
    requires Valid(p) && p.l <= 0.0
    requires a <= b
    ensures Limiter(p, a) <= Limiter(p, b)
  {
    if 0.0 < a {
      NonDecreasingAboveZero(p, a, b);
    } else if 0.0 < b < p.k {
      RampIsUnclamped(p, b);
    }
  }

  /**
   * The weight is non-decreasing on the whole real line exactly when the
   * fallback l is at most 0: the ramp starts from 0 just above phict = 0.
   */
  lemma NonDecreasingIff(p: Params)
    requires Valid(p)
    ensures NonDecreasing(p) <==> p.l <= 0.0
  {
    if p.l <= 0.0 {
      forall a, b | a <= b ensures Limiter(p, a) <= Limiter(p, b) {
        NonDecreasingWithNonPositiveFallback(p, a, b);
      }
    } else {
      var x := DipAboveZero(p);
      assert 0.0 <= x && Limiter(p, x) < Limiter(p, 0.0);
    }
  }

  /** With a fallback l above 0, some phict just above 0 gets a weight below l. */
  lemma DipAboveZero(p: Params) returns (x: real)
    requires Valid(p) && 0.0 < p.l
    ensures 0.0 < x && Limiter(p, x) < Limiter(p, 0.0)
  {
    x := PointWithQuotient(p.k, Min(p.l, 1.0) / 2.0);
    RampIsUnclamped(p, x);
  }

  // --------------------------------------------------------------- continuity

  /** Which neighbourhood of x0 is meant: both sides, only below, or only above. */
  datatype Side = BothSides | Below | Above

  predicate InNeighbourhood(x: real, x0: real, delta: real, side: Side)
  {
    match side
    case BothSides => x0 - delta < x < x0 + delta
    case Below => x0 - delta < x < x0
    case Above => x0 < x < x0 + delta
  }

  /** On the delta-neighbourhood of x0 the weight stays within eps of y. */
  ghost predicate CloseOn(p: Params, x0: real, delta: real, side: Side, y: real, eps: real)
  {
    forall x :: InNeighbourhood(x, x0, delta, side) ==> Abs(Limiter(p, x) - y) < eps
  }

  ghost predicate SomeDelta(p: Params, x0: real, side: Side, y: real, eps: real)
  {
    exists delta :: 0.0 < delta && CloseOn(p, x0, delta, side, y, eps)
  }

  /** The weight tends to y as phict approaches x0 from the given side. */
  ghost predicate TendsTo(p: Params, x0: real, side: Side, y: real)
  {
    forall eps :: 0.0 < eps ==> SomeDelta(p, x0, side, y, eps)
  }

  ghost predicate ContinuousAt(p: Params, x0: real)
  {
    TendsTo(p, x0, BothSides, Limiter(p, x0))
  }

  /** On the ramp, a phict within eps * k of c gets a weight within eps of c / k. */
  lemma RampClose(p: Params, x: real, c: real, eps: real)
    requires Valid(p) && 0.0 < eps
    requires 0.0 < x < p.k
    requires Abs(x - c) < eps * p.k
    ensures Abs(Limiter(p, x) - c / p.k) < eps
  {
    RampIsUnclamped(p, x);
    QuotientDistance(x, c, p.k, eps);
  }

  /** As phict tends to 0 from above, the weight tends to 0. */
  lemma TendsToZeroAboveZero(p: Params)
    requires Valid(p)
    ensures TendsTo(p, 0.0, Above, 0.0)
  {
    forall eps | 0.0 < eps ensures SomeDelta(p, 0.0, Above, 0.0, eps) {
      var delta := Min(p.k, eps * p.k);
      assert delta <= p.k && delta <= eps * p.k;
      forall x | InNeighbourhood(x, 0.0, delta, Above) ensures Abs(Limiter(p, x) - 0.0) < eps {
        RampClose(p, x, 0.0, eps);
      }
      assert CloseOn(p, 0.0, delta, Above, 0.0, eps);
    }
  }

  /** As phict tends to k from below, the weight tends to 1: the ramp meets the plateau. */
  lemma TendsToOneBelowThreshold(p: Params)
    requires Valid(p)
    ensures TendsTo(p, p.k, Below, 1.0)
  {
    QuotientOfProduct(1.0, p.k);
    forall eps | 0.0 < eps ensures SomeDelta(p, p.k, Below, 1.0, eps) {
      var delta := Min(p.k, eps * p.k);
      assert delta <= p.k && delta <= eps * p.k;
      forall x | InNeighbourhood(x, p.k, delta, Below) ensures Abs(Limiter(p, x) - 1.0) < eps {
        RampClose(p, x, p.k, eps);
      }
      assert CloseOn(p, p.k, delta, Below, 1.0, eps);
    }
  }

  /** The weight is continuous at the threshold phict = k. */
  lemma ContinuousAtThreshold(p: Params)
    requires Valid(p)
    ensures ContinuousAt(p, p.k)
  {
    QuotientOfProduct(1.0, p.k);
    assert Limiter(p, p.k) == 1.0;
    forall eps | 0.0 < eps ensures SomeDelta(p, p.k, BothSides, 1.0, eps) {
      var delta := Min(p.k, eps * p.k);
      assert delta <= p.k && delta <= eps * p.k;
      forall x | InNeighbourhood(x, p.k, delta, BothSides) ensures Abs(Limiter(p, x) - 1.0) < eps {
        if x < p.k {
          RampClose(p, x, p.k, eps);
        }
      }
      assert CloseOn(p, p.k, delta, BothSides, 1.0, eps);
    }
  }

  /** Inside the ramp the weight is continuous. */
  lemma ContinuousInsideRamp(p: Params, x0: real)
    requires Valid(p)
    requires 0.0 < x0 < p.k
    ensures ContinuousAt(p, x0)
  {
    RampIsUnclamped(p, x0);
    var y0 := Limiter(p, x0);
    forall eps | 0.0 < eps ensures SomeDelta(p, x0, BothSides, y0, eps) {
      var delta := Min(Min(x0, p.k - x0), eps * p.k);
      assert delta <= x0 && delta <= p.k - x0 && delta <= eps * p.k;
      forall x | InNeighbourhood(x, x0, delta, BothSides) ensures Abs(Limiter(p, x) - y0) < eps {
        RampClose(p, x, x0, eps);
      }
      assert CloseOn(p, x0, delta, BothSides, y0, eps);
    }
  }

  /** Where the weight is locally constant it is continuous: below 0 (value l) and above k (value 1). */
  lemma ContinuousWhereConstant(p: Params, x0: real)
    requires Valid(p)
    requires x0 < 0.0 || p.k < x0
    ensures ContinuousAt(p, x0)
  {
    var delta := if x0 < 0.0 then -x0 else x0 - p.k;
    forall eps | 0.0 < eps ensures SomeDelta(p, x0, BothSides, Limiter(p, x0), eps) {
      assert CloseOn(p, x0, delta, BothSides, Limiter(p, x0), eps);
    }
  }

  /**
   * With l != 0, every neighbourhood of 0 holds a ramp value at least |l| / 2
   * away from l: the weight jumps at phict = 0.
   */
  lemma JumpAtZero(p: Params, delta: real)
    requires Valid(p) && p.l != 0.0
    requires 0.0 < delta
    ensures !CloseOn(p, 0.0, delta, BothSides, p.l, Abs(p.l) / 2.0)
  {
    var x := PointBelowQuotient(p.k, Abs(p.l) / 2.0, delta);
    RampIsUnclamped(p, x);
    assert InNeighbourhood(x, 0.0, delta, BothSides);
  }

  /** At phict = 0 the weight jumps from l to the ramp's limit 0 unless l == 0. */
  lemma ContinuousAtZeroIff(p: Params)
    requires Valid(p)
    ensures ContinuousAt(p, 0.0) <==> p.l == 0.0
  {
    if p.l == 0.0 {
      forall eps | 0.0 < eps ensures SomeDelta(p, 0.0, BothSides, 0.0, eps) {
        var delta := Min(p.k, eps * p.k);
        assert delta <= p.k && delta <= eps * p.k;
        forall x | InNeighbourhood(x, 0.0, delta, BothSides) ensures Abs(Limiter(p, x) - 0.0) < eps {
          if 0.0 < x {
            RampClose(p, x, 0.0, eps);
          }
        }
        assert CloseOn(p, 0.0, delta, BothSides, 0.0, eps);
      }
    } else {
      var eps := Abs(p.l) / 2.0;
      forall delta | 0.0 < delta ensures !CloseOn(p, 0.0, delta, BothSides, p.l, eps) {
        JumpAtZero(p, delta);
      }
      assert !SomeDelta(p, 0.0, BothSides, p.l, eps);
    }
  }

  /** The weight is continuous at x0 exactly when x0 != 0 or the fallback l is 0. */
  lemma ContinuityIff(p: Params, x0: real)
    requires Valid(p)
    ensures ContinuousAt(p, x0) <==> (x0 != 0.0 || p.l == 0.0)
  {
    if x0 < 0.0 || p.k < x0 {
      ContinuousWhereConstant(p, x0);
    } else if x0 == p.k {
      ContinuousAtThreshold(p);
    } else if 0.0 < x0 {
      ContinuousInsideRamp(p, x0);
    } else {
      ContinuousAtZeroIff(p);
    }
  }
}
