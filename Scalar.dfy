/*
 * OpenFOAM's scalar max and min used by the limiter, the absolute value used
 * in the continuity definitions, and the facts about real division that the
 * proofs about the limiter rest on.
 */
module Scalar {

  function Max(a: real, b: real): real { if a < b then b else a }
  function Min(a: real, b: real): real { if a < b then a else b }

  /** The absolute value used in the continuity definitions. */
  function Abs(x: real): real { if x < 0.0 then -x else x }

  // Real-division facts, one per lemma so that each proof stays linear.

  lemma QuotientPositive(a: real, k: real)
    requires 0.0 < a && 0.0 < k
    ensures 0.0 < a / k
  {
  }

  lemma QuotientNonNegative(a: real, k: real)
    requires 0.0 <= a && 0.0 < k
    ensures 0.0 <= a / k
  {
  }

  lemma QuotientDifference(a: real, b: real, k: real)
    requires k != 0.0
    ensures b / k - a / k == (b - a) / k
  {
  }

  lemma QuotientOfProduct(m: real, k: real)
    requires k != 0.0
    ensures (m * k) / k == m
  {
  }

  lemma ProductPositive(a: real, b: real)
    requires 0.0 < a && 0.0 < b
    ensures 0.0 < a * b
  {
  }

  /** A point of (0, k) whose quotient by k is a given m in (0, 1). */
  lemma PointWithQuotient(k: real, m: real) returns (x: real)
    requires 0.0 < k && 0.0 < m < 1.0
    ensures 0.0 < x < k && x / k == m
  {
    x := m * k;
    ProductPositive(m, k);
    ProductPositive(1.0 - m, k);
    assert k - x == (1.0 - m) * k;
  }

  /** A point of (0, min(k, delta)) whose quotient by k is at most h. */
  lemma PointBelowQuotient(k: real, h: real, delta: real) returns (x: real)
    requires 0.0 < k && 0.0 < h && 0.0 < delta
    ensures 0.0 < x < k && x < delta && x / k <= h
  {
    var t := h * k;
    ProductPositive(h, k);
    x := Min(Min(delta, k) / 2.0, t);
    QuotientMonotone(x, t, k);
    QuotientOfProduct(h, k);
  }

  /** For 0 < x < k the quotient x / k lies strictly between 0 and 1. */
  lemma RampQuotient(x: real, k: real)
    requires 0.0 < x < k
    ensures 0.0 < x / k < 1.0
  {
    QuotientPositive(x, k);
    QuotientPositive(k - x, k);
    QuotientDifference(x, k, k);
    QuotientOfProduct(1.0, k);
  }

  /** Division by a positive k keeps the order of its operands. */
  lemma QuotientMonotone(a: real, b: real, k: real)
    requires 0.0 < k && a <= b
    ensures a / k <= b / k
  {
    QuotientNonNegative(b - a, k);
    QuotientDifference(a, b, k);
  }

  /** Dividing by a positive k scales a distance below eps * k to one below eps. */
  lemma QuotientDistance(a: real, b: real, k: real, eps: real)
    requires 0.0 < k && 0.0 < eps
    requires Abs(a - b) < eps * k
    ensures Abs(a / k - b / k) < eps
  {
    QuotientOfProduct(eps, k);
    if b <= a {
      QuotientDifference(b, a, k);
      QuotientNonNegative(a - b, k);
      QuotientPositive(eps * k - (a - b), k);
      QuotientDifference(a - b, eps * k, k);
    } else {
      QuotientDifference(a, b, k);
      QuotientPositive(b - a, k);
      QuotientPositive(eps * k - (b - a), k);
      QuotientDifference(b - a, eps * k, k);
    }
  }
}
