/** Lagrange interpolation evaluated at 0 only, as the secret-sharing
    files compute it: for point i, the product of -x_j over the product of
    x_i - x_j (j != i), times y_i. Each term is the value at 0 of the basis
    polynomial that `interpolate` builds, so summing the terms gives the
    constant term of the interpolated polynomial. */
module LagrangeZero {
  import opened ModArith
  import opened Primes
  import opened PolyMath
  import opened Polynomials
  import opened Outcomes

  /** `num` after the inner loop has visited points[..j] for point i: the
      product of -x_j over those j != i, reduced modulo p after each factor. */
  function ZeroNumerator(points: seq<(int, int)>, i: nat, j: nat, p: int): int
    requires p > 0 && i < |points| && j <= |points|
  {
    if j == 0 then 1
    else if j - 1 == i then ZeroNumerator(points, i, j - 1, p)
    else (ZeroNumerator(points, i, j - 1, p) * -points[j - 1].0) % p
  }

  /** The numerator is the basis product at x = 0 modulo p. */
  lemma {:induction false} ZeroNumeratorIsBasisProduct(points: seq<(int, int)>, i: nat, j: nat, p: int)
    requires p > 0 && i < |points| && j <= |points|
    ensures ZeroNumerator(points, i, j, p) % p == BasisProduct(points, i, j, 0) % p
    decreases j
  {
    if j > 0 {
      ZeroNumeratorIsBasisProduct(points, i, j - 1, p);
      if j - 1 != i {
        var z := ZeroNumerator(points, i, j - 1, p);
        ModMulCongruent(z, BasisProduct(points, i, j - 1, 0), -points[j - 1].0, p);
        ModMod(z * -points[j - 1].0, p);
        assert BasisProduct(points, i, j, 0) == BasisProduct(points, i, j - 1, 0) * (0 - points[j - 1].0);
      }
    }
  }

  /** Numerator and denominator depend on the x coordinates only. */
  lemma {:induction false} SameXs(a: seq<(int, int)>, b: seq<(int, int)>, i: nat, j: nat, p: int)
    requires p > 0 && |a| == |b| && i < |a| && j <= |a|
    requires forall m :: 0 <= m < |a| ==> a[m].0 == b[m].0
    ensures ZeroNumerator(a, i, j, p) == ZeroNumerator(b, i, j, p)
    ensures Denominator(a, i, j, p) == Denominator(b, i, j, p)
    decreases j
  {
    if j > 0 {
      SameXs(a, b, i, j - 1, p);
    }
  }

  /** The inner loop over the other points that `reconstruct_secret` of the
      Shamir backup and `lagrange_interpolate` of the verifiable scheme run
      for point i: `num` and `den` start at 1 and take one factor per other
      point, reduced modulo the prime. */
  method BasisAtZero(points: seq<(int, int)>, i: nat, prime: int) returns (numerator: int, denominator: int)
    requires prime > 0 && i < |points|
    ensures numerator == ZeroNumerator(points, i, |points|, prime)
    ensures denominator == Denominator(points, i, |points|, prime)
  {
    var xi := points[i].0;
    numerator, denominator := 1, 1;
    for j := 0 to |points|
      invariant numerator == ZeroNumerator(points, i, j, prime)
      invariant denominator == Denominator(points, i, j, prime)
    {
      if i != j {
        assert ZeroNumerator(points, i, j + 1, prime) == (numerator * -points[j].0) % prime;
        assert Denominator(points, i, j + 1, prime) == (denominator * (xi - points[j].0)) % prime;
        numerator := (numerator * -points[j].0) % prime;
        denominator := (denominator * (xi - points[j].0)) % prime;
      } else {
        assert ZeroNumerator(points, i, j + 1, prime) == ZeroNumerator(points, i, j, prime);
        assert Denominator(points, i, j + 1, prime) == Denominator(points, i, j, prime);
      }
    }
  }

  /** Adding the term y_i * num_i * inv_i of point i, where inv_i inverts
      its denominator, adds the value at 0 of the scaled basis polynomial
      `interpolate` adds for that point. */
  lemma ZeroTermStep(points: seq<(int, int)>, i: nat, p: int, acc: seq<int>, secret: int, inv: int)
    requires p > 0 && i < |points| && InterpolateUpTo(points, i, p) == Returned(acc) && secret == Eval(acc, 0, p)
    requires ModInverse(Denominator(points, i, |points|, p), p) == Some(inv)
    ensures InterpolateUpTo(points, i + 1, p).Returned?
    ensures (secret + (points[i].1 * ZeroNumerator(points, i, |points|, p) * inv) % p) % p ==
            Eval(InterpolateUpTo(points, i + 1, p).value, 0, p)
  {
    OuterStep(points, i, p, acc);
    var y := points[i].1;
    var n := Numerator(points, i, |points|, p);
    var sc := (y * inv) % p;
    AddSpecEval(acc, ScalarMultiply(n, sc, p), 0, p);
    ScalarMultiplyEval(n, sc, 0, p);
    NumeratorEval(points, i, |points|, 0, p);
    ZeroNumeratorIsBasisProduct(points, i, |points|, p);
    TermCongruent(y, ZeroNumerator(points, i, |points|, p), inv, Eval(n, 0, p), p);
  }

  /** y * numerator * inv and (y * inv mod p) * n0 agree modulo p when
      numerator is n0 modulo p. */
  lemma TermCongruent(y: int, numerator: int, inv: int, n0: int, p: int)
    requires 0 <= n0 < p && numerator % p == n0
    ensures (y * numerator * inv) % p == (((y * inv) % p) * n0) % p
  {
    ModSmall(n0, p);
    ModMulLeft(y * inv, n0, p);
    ModMulCongruent(numerator, n0, y * inv, p);
    assert y * numerator * inv == numerator * (y * inv) by {
      MulSwap(y, numerator, inv);
      MulSwap(numerator, y, inv);
    }
    assert n0 * (y * inv) == (y * inv) * n0;
  }
}
