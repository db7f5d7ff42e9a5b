/** Publicly verifiable secret sharing: Shamir shares of a secret over
    Z_q, Feldman commitments g^(a_j) mod p to the polynomial's coefficients
    (g of order q modulo p) against which anyone can check a share, and
    Lagrange interpolation at 0 with inverses taken by Fermat's little
    theorem. */
module Pvss {
  import opened ModArith
  import opened Primes
  import opened PolyMath
  import opened Polynomials
  import opened Outcomes
  import opened LagrangeZero

  // ---------------------------------------------------------------------
  // inverse

  /** `inverse`: x^(q-2) mod q. */
  function Inverse(x: int, q: int): (r: int)
    requires q >= 2
    ensures 0 <= r < q
  {
    ModPow(x, q - 2, q)
  }

  /** For a prime q and x not divisible by q, x^(q-2) inverts x modulo q. */
  lemma InverseIsInverse(x: int, q: int)
    requires IsPrime(q) && x % q != 0
    ensures (x * Inverse(x, q)) % q == 1
  {
    FermatLittle(x, q);
    assert Pow(x, q - 1) == x * Pow(x, q - 2);
    ModMulRight(x, Pow(x, q - 2), q);
  }

  /** Where an inverse exists it is the one `pow(x, -1, q)` returns. */
  lemma InverseAgrees(x: int, q: int)
    requires IsPrime(q) && ModInverse(x, q).Some?
    ensures ModInverse(x, q) == Some(Inverse(x, q))
  {
    if x % q == 0 {
      ModZeroFactor(x, ModInverse(x, q).value, q);
      ModSmall(1, q);
      assert false;
    }
    InverseIsInverse(x, q);
    ModSmall(1, q);
    InverseUnique(x, ModInverse(x, q).value, Inverse(x, q), q);
    ModSmall(ModInverse(x, q).value, q);
    ModSmall(Inverse(x, q), q);
  }

  /** Where no inverse exists `inverse` does not fail: for q > 2 it
      returns 0. */
  lemma InverseOfZero(x: int, q: int)
    requires q > 2 && x % q == 0
    ensures Inverse(x, q) == 0
  {
    PowMod(x, q - 2, q);
    PowZeroBase(q - 2);
    ModSmall(0, q);
  }

  // ---------------------------------------------------------------------
  // generate_random_poly, eval_poly, compute_shares

  /** `generate_random_poly`: [secret mod q] followed by the t draws of
      `random.randrange(0, q)`. */
  method GenerateRandomPoly(secret: int, t: int, q: int, draws: seq<int>) returns (coeffs: seq<int>)
    requires q > 0 && |draws| == Max(t, 0)
    requires forall k :: 0 <= k < |draws| ==> 0 <= draws[k] < q
    ensures |coeffs| == Max(t, 0) + 1 && coeffs[0] == secret % q
    ensures forall k :: 0 <= k < |coeffs| ==> 0 <= coeffs[k] < q
    ensures coeffs[1..] == draws
  {
    coeffs := [secret % q];
    for k := 0 to |draws|
      invariant coeffs == [secret % q] + draws[..k]
    {
      coeffs := coeffs + [draws[k]];
    }
    assert draws[..|draws|] == draws;
  }

  /** `eval_poly`: the accumulator loop, reduced modulo q at every step. */
  method EvalPoly(coeffs: seq<int>, x: int, q: int) returns (r: int)
    requires q > 0
    ensures r == Eval(coeffs, x, q)
  {
    var result, powerOfX := 0, 1;
    for i := 0 to |coeffs|
      invariant result == Eval(coeffs[..i], x, q)
      invariant powerOfX % q == Pow(x, i) % q
    {
      EvalLoopStep(coeffs, i, x, q, result, powerOfX);
      result := (result + coeffs[i] * powerOfX) % q;
      powerOfX := (powerOfX * x) % q;
    }
    assert coeffs[..|coeffs|] == coeffs;
    r := result;
  }

  /** The shares f(1), ..., f(n) modulo q. */
  function ShareValues(coeffs: seq<int>, n: nat, q: int): (r: seq<int>)
    requires q > 0
    ensures |r| == n
  {
    seq(n, k requires 0 <= k < n => Eval(coeffs, k + 1, q))
  }

  /** `compute_shares`: eval_poly at 1..n, appended in order. */
  method ComputeShares(coeffs: seq<int>, n: int, q: int) returns (shares: seq<int>)
    requires q > 0
    ensures shares == ShareValues(coeffs, Max(n, 0), q)
  {
    shares := [];
    for i := 0 to Max(n, 0)
      invariant shares == ShareValues(coeffs, i, q)
    {
      var shareI := EvalPoly(coeffs, i + 1, q);
      shares := shares + [shareI];
    }
  }

  // ---------------------------------------------------------------------
  // commit_coeffs and verify_share

  /** `commit_coeffs`: C_j = g^(a_j mod q) mod p for every coefficient. */
  function CommitCoeffs(coeffs: seq<int>, g: int, p: int, q: int): (r: seq<int>)
    requires p > 0 && q > 0
    ensures |r| == |coeffs| && forall j :: 0 <= j < |r| ==> 0 <= r[j] < p
  {
    seq(|coeffs|, j requires 0 <= j < |coeffs| => ModPow(g, coeffs[j] % q, p))
  }

  /** `i_power` in round j of `verify_share`: 1, then multiplied by i and
      reduced modulo q each round. */
  function IPower(i: int, j: nat, q: int): nat
    requires q > 0
  {
    if j == 0 then 1 else (IPower(i, j - 1, q) * i) % q
  }

  /** `rhs` after the first k commitments: the product of C_j^(i_power_j)
      mod p. */
  function CommitmentProduct(commitments: seq<int>, i: int, p: int, q: int, k: nat): int
    requires p > 0 && q > 0 && k <= |commitments|
  {
    if k == 0 then 1
    else (CommitmentProduct(commitments, i, p, q, k - 1) * ModPow(commitments[k - 1], IPower(i, k - 1, q), p)) % p
  }

  /** `verify_share`: g^share mod p against the product of the
      commitments raised to successive powers of i. */
  method VerifyShare(share: nat, i: int, commitments: seq<int>, g: int, p: int, q: int) returns (ok: bool)
    requires p > 0 && q > 0
    ensures ok <==> ModPow(g, share, p) == CommitmentProduct(commitments, i, p, q, |commitments|)
  {
    var lhs := ModPow(g, share, p);
    var rhs, iPower := 1, 1;
    for j := 0 to |commitments|
      invariant rhs == CommitmentProduct(commitments, i, p, q, j)
      invariant iPower == IPower(i, j, q)
    {
      rhs := (rhs * ModPow(commitments[j], iPower, p)) % p;
      iPower := (iPower * i) % q;
    }
    ok := lhs == rhs;
  }

  /** The exponent the product of the first k commitments raises g to:
      the sum of (a_j mod q) * i_power_j. */
  ghost function Exponent(coeffs: seq<int>, i: int, q: int, k: nat): nat
    requires q > 0 && k <= |coeffs|
  {
    if k == 0 then 0
    else Exponent(coeffs, i, q, k - 1) + (coeffs[k - 1] % q) * IPower(i, k - 1, q)
  }

  /** The product of the commitments is g raised to the exponent. */
  lemma {:induction false} ProductIsPower(coeffs: seq<int>, i: int, g: int, p: int, q: int, k: nat)
    requires p > 1 && q > 0 && k <= |coeffs|
    ensures CommitmentProduct(CommitCoeffs(coeffs, g, p, q), i, p, q, k) == ModPow(g, Exponent(coeffs, i, q, k), p)
    decreases k
  {
    var cs := CommitCoeffs(coeffs, g, p, q);
    if k == 0 {
      ModSmall(1, p);
    } else {
      ProductIsPower(coeffs, i, g, p, q, k - 1);
      var a, e := coeffs[k - 1] % q, IPower(i, k - 1, q);
      ModPowPow(g, a, e, p);
      ModPowAdd(g, Exponent(coeffs, i, q, k - 1), a * e, p);
    }
  }

  /** i_power_j is i^j modulo q. */
  lemma {:induction false} IPowerIsPow(i: int, j: nat, q: int)
    requires q > 1
    ensures IPower(i, j, q) % q == Pow(i, j) % q
    decreases j
  {
    if j == 0 {
      ModSmall(1, q);
    } else {
      IPowerIsPow(i, j - 1, q);
      ModMod(IPower(i, j - 1, q) * i, q);
      ModMulCongruent(IPower(i, j - 1, q), Pow(i, j - 1), i, q);
      assert Pow(i, j) == Pow(i, j - 1) * i;
    }
  }

  /** The exponent is the polynomial's value at i modulo q. */
  lemma {:induction false} ExponentIsValue(coeffs: seq<int>, i: int, q: int, k: nat)
    requires q > 1 && k <= |coeffs|
    ensures Exponent(coeffs, i, q, k) % q == Eval(coeffs[..k], i, q)
    decreases k
  {
    if k == 0 {
      ModSmall(0, q);
    } else {
      ExponentIsValue(coeffs, i, q, k - 1);
      var a, e, w := coeffs[k - 1], IPower(i, k - 1, q), Pow(i, k - 1);
      var x := Exponent(coeffs, i, q, k - 1);
      PolyValuePrefix(coeffs, k - 1, i);
      IPowerIsPow(i, k - 1, q);
      ModMod(PolyValue(coeffs[..k - 1], i), q);
      // (a mod q) * e is a * i^(k-1) modulo q
      ModMulLeft(a, e, q);
      SumProductCongruent(x, PolyValue(coeffs[..k - 1], i), a, e, w, q);
      ModAddCongruent((a % q) * e, a * e, x, q);
      assert x + (a % q) * e == (a % q) * e + x;
      assert x + a * e == a * e + x;
    }
  }

  /** The honest-share claim of `verify_share`: when g^q = 1 modulo p > 1, the
      share f(i) mod q checks out against the commitments to f. */
  lemma HonestShareVerifies(coeffs: seq<int>, i: int, g: int, p: int, q: int)
    requires p > 1 && q > 1 && Pow(g, q) % p == 1
    ensures ModPow(g, Eval(coeffs, i, q), p) ==
            CommitmentProduct(CommitCoeffs(coeffs, g, p, q), i, p, q, |coeffs|)
  {
    var k := |coeffs|;
    ProductIsPower(coeffs, i, g, p, q, k);
    ExponentIsValue(coeffs, i, q, k);
    assert coeffs[..k] == coeffs;
    ModSmall(1, p);
    PowExponentMod(g, Exponent(coeffs, i, q, k), q, p);
  }

  /** When g has order exactly q modulo p, g^a and g^b agree modulo p for
      exponents in [0, q) only if a == b. */
  lemma PowInjective(g: int, a: nat, b: nat, p: int, q: nat)
    requires p > 1 && q > 0 && a < q && b < q
    requires Pow(g, q) % p == 1 && forall k :: 0 < k < q ==> Pow(g, k) % p != 1
    requires Pow(g, a) % p == Pow(g, b) % p
    ensures a == b
  {
    if a < b {
      PowCancel(g, a, b, p, q);
    } else if b < a {
      PowCancel(g, b, a, p, q);
    }
  }

  /** g^hi = g^lo modulo p with lo <= hi <= q and g^q = 1 gives g^(hi - lo) = 1:
      multiply both sides by g^(q - lo). */
  lemma PowCancel(g: int, lo: nat, hi: nat, p: int, q: nat)
    requires p > 1 && lo <= hi <= q && Pow(g, q) % p == 1 && Pow(g, hi) % p == Pow(g, lo) % p
    ensures Pow(g, hi - lo) % p == 1
  {
    var d := hi - lo;
    var gq, gd, gc := Pow(g, q), Pow(g, d), Pow(g, q - lo);
    ModMulCongruent(Pow(g, hi), Pow(g, lo), gc, p);
    PowAdd(g, hi, q - lo);
    PowAdd(g, lo, q - lo);
    PowAdd(g, q, d);
    assert hi + (q - lo) == q + d;
    ModMulCongruent(gq, 1, gd, p);
    calc {
      gd % p;
      (gq * gd) % p;
      Pow(g, q + d) % p;
      (Pow(g, hi) * gc) % p;
      (Pow(g, lo) * gc) % p;
      gq % p;
    }
  }

  /** Under the same order assumption `verify_share` accepts a share in
      [0, q) exactly when it is the honest one, f(i) mod q. */
  lemma VerifyShareExact(coeffs: seq<int>, i: int, share: nat, g: int, p: int, q: int)
    requires p > 1 && q > 1 && share < q
    requires Pow(g, q) % p == 1 && forall k :: 0 < k < q ==> Pow(g, k) % p != 1
    ensures ModPow(g, share, p) == CommitmentProduct(CommitCoeffs(coeffs, g, p, q), i, p, q, |coeffs|) <==>
            share == Eval(coeffs, i, q)
  {
    ModSmall(1, p);
    HonestShareVerifies(coeffs, i, g, p, q);
    if ModPow(g, share, p) == CommitmentProduct(CommitCoeffs(coeffs, g, p, q), i, p, q, |coeffs|) {
      PowInjective(g, share, Eval(coeffs, i, q), p, q);
    }
  }

  // ---------------------------------------------------------------------
  // lagrange_interpolate

  /** `secret` after the outer loop of `lagrange_interpolate` has handled
      points[..s]: the sum of y_i * num_i * inverse(den_i) modulo q. */
  function LagrangeSum(points: seq<(int, int)>, s: nat, q: int): (r: int)
    requires q >= 2 && s <= |points|
    ensures 0 <= r < q
  {
    if s == 0 then 0
    else (LagrangeSum(points, s - 1, q) + LagrangeTerm(points, s - 1, q)) % q
  }

  /** The term of point i: y_i * num_i * inverse(den_i) modulo q. */
  function LagrangeTerm(points: seq<(int, int)>, i: nat, q: int): int
    requires q >= 2 && i < |points|
  {
    (points[i].1 * ZeroNumerator(points, i, |points|, q) * Inverse(Denominator(points, i, |points|, q), q)) % q
  }

  /** `lagrange_interpolate`: no step can fail, since `inverse` is a
      plain power. */
  method LagrangeInterpolate(points: seq<(int, int)>, q: int) returns (secret: int)
    requires q >= 2
    ensures secret == LagrangeSum(points, |points|, q)
  {
    secret := 0;
    for i := 0 to |points|
      invariant secret == LagrangeSum(points, i, q)
    {
      var num, den := BasisAtZero(points, i, q);
      var invDen := Inverse(den, q);
      var term := (points[i].1 * num * invDen) % q;
      secret := (secret + term) % q;
    }
  }

  /** With x coordinates distinct modulo the prime q, the sum is the value
      at 0 of the polynomial `interpolate` builds through the points (and
      `interpolate` does not raise). */
  lemma LagrangeSumInterpolates(points: seq<(int, int)>, q: int)
    requires IsPrime(q) && DistinctMod(Xs(points), q)
    ensures InterpolateUpTo(points, |points|, q).Returned?
    ensures LagrangeSum(points, |points|, q) == Eval(InterpolateUpTo(points, |points|, q).value, 0, q)
  {
    ZeroPolynomialEval(0, q);
    var i := 0;
    while i < |points|
      invariant i <= |points|
      invariant InterpolateUpTo(points, i, q).Returned?
      invariant LagrangeSum(points, i, q) == Eval(InterpolateUpTo(points, i, q).value, 0, q)
    {
      LagrangeSumAdvance(points, i, q);
      i := i + 1;
    }
  }

  /** One more point keeps the sum equal to the value at 0 of the
      interpolating polynomial. */
  lemma LagrangeSumAdvance(points: seq<(int, int)>, i: nat, q: int)
    requires IsPrime(q) && i < |points| && DistinctMod(Xs(points), q)
    requires InterpolateUpTo(points, i, q).Returned?
    requires LagrangeSum(points, i, q) == Eval(InterpolateUpTo(points, i, q).value, 0, q)
    ensures InterpolateUpTo(points, i + 1, q).Returned?
    ensures LagrangeSum(points, i + 1, q) == Eval(InterpolateUpTo(points, i + 1, q).value, 0, q)
  {
    var den := Denominator(points, i, |points|, q);
    var inv := Inverse(den, q);
    assert ModInverse(den, q) == Some(inv) by {
      DistinctInvertible(points, i, q);
      InverseAgrees(den, q);
    }
    LagrangeSumUnfold(points, i, q, inv);
    LagrangeSumStep(points, i, q, inv, InterpolateUpTo(points, i, q).value, LagrangeSum(points, i, q), LagrangeSum(points, i + 1, q));
  }

  /** Adding the term of point i to the value at 0 of the polynomial built
      from points[..i] gives the value at 0 of the one built from
      points[..i + 1], when inv inverts the term's denominator. */
  lemma LagrangeSumStep(points: seq<(int, int)>, i: nat, q: int, inv: int, acc: seq<int>, secret: int, next: int)
    requires q >= 2 && i < |points| && InterpolateUpTo(points, i, q) == Returned(acc) && secret == Eval(acc, 0, q)
    requires ModInverse(Denominator(points, i, |points|, q), q) == Some(inv)
    requires next == (secret + (points[i].1 * ZeroNumerator(points, i, |points|, q) * inv) % q) % q
    ensures InterpolateUpTo(points, i + 1, q).Returned?
    ensures next == Eval(InterpolateUpTo(points, i + 1, q).value, 0, q)
  {
    ZeroTermStep(points, i, q, acc, secret, inv);
  }

  /** The sum over points[..i + 1] adds the term of point i. */
  lemma LagrangeSumUnfold(points: seq<(int, int)>, i: nat, q: int, inv: int)
    requires q >= 2 && i < |points| && inv == Inverse(Denominator(points, i, |points|, q), q)
    ensures LagrangeSum(points, i + 1, q) ==
            (LagrangeSum(points, i, q) + (points[i].1 * ZeroNumerator(points, i, |points|, q) * inv) % q) % q
  {
  }

  /** With distinct x coordinates every denominator is invertible. */
  lemma DistinctInvertible(points: seq<(int, int)>, i: nat, q: int)
    requires IsPrime(q) && i < |points| && DistinctMod(Xs(points), q)
    ensures ModInverse(Denominator(points, i, |points|, q), q).Some?
  {
    forall m | 0 <= m < |points| && m != i
      ensures points[i].0 % q != points[m].0 % q
    {
      var xs := Xs(points);
      if i < m { assert xs[i] % q != xs[m] % q; }
      else { assert xs[m] % q != xs[i] % q; }
    }
    DenominatorInvertibleIff(points, i, q);
  }

  /** `lagrange_interpolate` returns f(0) mod q from points of f taken at
      x coordinates distinct modulo q, given at least as many points as f
      has coefficients (t + 1 shares of a degree-t polynomial). */
  lemma LagrangeRecovers(points: seq<(int, int)>, coeffs: seq<int>, q: int)
    requires IsPrime(q) && DistinctMod(Xs(points), q) && |coeffs| <= |points|
    requires forall k :: 0 <= k < |points| ==> points[k].1 % q == Eval(coeffs, points[k].0, q)
    ensures LagrangeSum(points, |points|, q) == Coef(coeffs, 0) % q
  {
    LagrangeSumInterpolates(points, q);
    InterpolateUnique(points, coeffs, q);
    PolyValueAtZero(coeffs, q);
  }

  /** The scheme end to end: shares of [secret mod q] + draws at 1..n,
      any t + 1 or more of them at distinct indices interpolate back to
      secret mod q. */
  lemma SharesThenInterpolate(secret: int, t: int, n: int, q: int, draws: seq<int>, chosen: seq<int>)
    requires IsPrime(q) && n < q && |draws| == Max(t, 0)
    requires |chosen| >= Max(t, 0) + 1
    requires forall k :: 0 <= k < |chosen| ==> 1 <= chosen[k] <= n
    requires forall a, b :: 0 <= a < b < |chosen| ==> chosen[a] != chosen[b]
    ensures var shares := ShareValues([secret % q] + draws, Max(n, 0), q);
            var points := seq(|chosen|, k requires 0 <= k < |chosen| => (chosen[k], shares[chosen[k] - 1]));
            LagrangeSum(points, |points|, q) == secret % q
  {
    var c := [secret % q] + draws;
    var shares := ShareValues(c, Max(n, 0), q);
    var points := seq(|chosen|, k requires 0 <= k < |chosen| => (chosen[k], shares[chosen[k] - 1]));
    var xs := Xs(points);
    forall a, b | 0 <= a < b < |xs|
      ensures xs[a] % q != xs[b] % q
    {
      ModSmall(xs[a], q);
      ModSmall(xs[b], q);
    }
    forall k | 0 <= k < |points|
      ensures points[k].1 % q == Eval(c, points[k].0, q)
    {
      ModMod(PolyValue(c, chosen[k]), q);
    }
    LagrangeRecovers(points, c, q);
    ModMod(secret, q);
  }
}
