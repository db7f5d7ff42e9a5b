/** Shamir secret sharing for private-key backup: a secret is the constant
    term of a random polynomial over Z_prime, share i is its value at i, and
    any `threshold` shares give the secret back by Lagrange interpolation
    at 0. */
module ShamirKeyBackup {
  import opened ModArith
  import opened Primes
  import opened PolyMath
  import opened Polynomials
  import opened Outcomes
  import opened LagrangeZero

  /** One share: the evaluation point and the polynomial's value there. */
  datatype Share = Share(index: int, value: int)

  /** The shares for indices 1..n of the polynomial with coefficients c. */
  function Shares(c: seq<int>, n: nat, p: int): (r: seq<Share>)
    requires p > 0
    ensures |r| == n
  {
    seq(n, k requires 0 <= k < n => Share(k + 1, Eval(c, k + 1, p)))
  }

  /** The shares as (x, y) points, the form interpolation works on. */
  function Points(shares: seq<Share>): (r: seq<(int, int)>)
    ensures |r| == |shares|
  {
    seq(|shares|, k requires 0 <= k < |shares| => (shares[k].index, shares[k].value))
  }

  /** What `reconstruct_secret` returns or raises: the constant term of the
      Lagrange polynomial through the shares, ValueError on an empty list
      and on a denominator with no inverse. */
  function ReconstructSpec(shares: seq<Share>, prime: int): Outcome<int>
    requires prime > 0
  {
    if |shares| == 0 then Raised(NoShares)
    else match InterpolateSpec(Points(shares), prime)
      case Raised(e) => Raised(e)
      case Returned(poly) => Returned(Eval(poly.coefficients, 0, prime))
  }

  /** The sharing scheme; it only holds the prime of its field. */
  class ShamirSecretSharing {
    const prime: int

    /** Holds once the constructor has drawn its prime. */
    predicate Valid()
    {
      IsPrime(prime)
    }

    /** The constructor draws a safe prime: prime and (prime - 1) / 2 are
        both prime. The draw is the parameter here. */
    constructor (safePrime: int)
      requires IsPrime(safePrime) && IsPrime((safePrime - 1) / 2)
      ensures prime == safePrime && Valid()
    {
      prime := safePrime;
    }

    /** `split_secret`: the coefficient list [secret] + draws, evaluated at
        1..total_shares. `draws` are the threshold - 1 values of
        `random.randrange(1, prime)`. */
    method SplitSecret(secret: int, threshold: int, totalShares: int, draws: seq<int>) returns (r: Outcome<seq<Share>>)
      requires Valid()
      requires |draws| == Max(threshold - 1, 0)
      requires forall k :: 0 <= k < |draws| ==> 1 <= draws[k] < prime
      ensures threshold > totalShares ==> r == Raised(ThresholdTooLarge)
      ensures threshold <= totalShares && secret >= prime ==> r == Raised(SecretTooLarge)
      ensures threshold <= totalShares && secret < prime ==>
                r == Returned(Shares([secret] + draws, Max(totalShares, 0), prime))
    {
      if threshold > totalShares {
        return Raised(ThresholdTooLarge);
      }
      if secret >= prime {
        return Raised(SecretTooLarge);
      }
      var coefficients := [secret] + draws;
      var n := Max(totalShares, 0);
      var shares := [];
      for i := 0 to n
        invariant shares == Shares(coefficients, i, prime)
      {
        var value := EvaluatePolynomial(coefficients, i + 1);
        shares := shares + [Share(i + 1, value)];
      }
      r := Returned(shares);
    }

    /** `reconstruct_secret`: for every share, y_i times the product of
        -x_j over the product of x_i - x_j (j != i), summed modulo the prime. */
    method ReconstructSecret(shares: seq<Share>) returns (r: Outcome<int>)
      requires Valid()
      ensures r == ReconstructSpec(shares, prime)
      ensures r.Returned? ==> 0 <= r.value < prime
    {
      if |shares| == 0 {
        return Raised(NoShares);
      }
      r := SumAtZero(Points(shares), prime);
      SpecFromLoop(shares, prime);
    }

    /** `_evaluate_polynomial`: running sum and running power of x, both
        reduced modulo the prime. */
    method EvaluatePolynomial(coefficients: seq<int>, x: int) returns (r: int)
      requires Valid()
      ensures r == Eval(coefficients, x, prime)
    {
      var result, power := 0, 1;
      for i := 0 to |coefficients|
        invariant result == Eval(coefficients[..i], x, prime)
        invariant power % prime == Pow(x, i) % prime
      {
        EvalLoopStep(coefficients, i, x, prime, result, power);
        result := (result + coefficients[i] * power) % prime;
        power := (power * x) % prime;
      }
      assert coefficients[..|coefficients|] == coefficients;
      r := result;
    }
  }

  /** The outer loop of `reconstruct_secret` over the shares as points:
      each share adds its Lagrange term at 0, and a denominator without
      inverse raises. It ends where interpolation ends, with the value at 0
      of the interpolated polynomial. */
  method SumAtZero(points: seq<(int, int)>, prime: int) returns (r: Outcome<int>)
    requires prime > 0
    ensures var u := InterpolateUpTo(points, |points|, prime);
            r == if u.Raised? then Raised(u.error) else Returned(Eval(u.value, 0, prime))
  {
    var secret := 0;
    assert Eval([0], 0, prime) == 0 by {
      ZeroPolynomialEval(0, prime);
    }
    for i := 0 to |points|
      invariant InterpolateUpTo(points, i, prime).Returned?
      invariant secret == Eval(InterpolateUpTo(points, i, prime).value, 0, prime)
    {
      var ok, next := AddPointTerm(points, i, prime, secret);
      if !ok {
        return Raised(NotInvertible);
      }
      secret := next;
    }
    r := Returned(secret);
  }

  /** The body of the outer loop for point i: its numerator and
      denominator at 0, the inverse of the denominator (`pow(.., -1, ..)`
      raises without one) and the new running sum. */
  method AddPointTerm(points: seq<(int, int)>, i: nat, prime: int, secret: int) returns (ok: bool, next: int)
    requires prime > 0 && i < |points| && InterpolateUpTo(points, i, prime).Returned?
    requires secret == Eval(InterpolateUpTo(points, i, prime).value, 0, prime)
    ensures !ok ==> InterpolateUpTo(points, |points|, prime) == Raised(NotInvertible)
    ensures ok ==> InterpolateUpTo(points, i + 1, prime).Returned?
    ensures ok ==> next == Eval(InterpolateUpTo(points, i + 1, prime).value, 0, prime)
  {
    var numerator, denominator := BasisAtZero(points, i, prime);
    var inv := ModInverse(denominator, prime);
    ZeroSumStep(points, i, prime, secret, numerator, inv);
    if inv.None? {
      return false, 0;
    }
    var term := (points[i].1 * numerator * inv.value) % prime;
    ok, next := true, (secret + term) % prime;
  }

  /** One round of the outer loop: a denominator without inverse makes
      interpolation raise, and otherwise the new running sum is the value
      at 0 of the polynomial built from one more point. */
  lemma ZeroSumStep(points: seq<(int, int)>, i: nat, prime: int, secret: int, numerator: int, inv: Option<int>)
    requires prime > 0 && i < |points| && InterpolateUpTo(points, i, prime).Returned?
    requires secret == Eval(InterpolateUpTo(points, i, prime).value, 0, prime)
    requires numerator == ZeroNumerator(points, i, |points|, prime)
    requires inv == ModInverse(Denominator(points, i, |points|, prime), prime)
    ensures inv.None? ==> InterpolateUpTo(points, |points|, prime) == Raised(NotInvertible)
    ensures inv.Some? ==> InterpolateUpTo(points, i + 1, prime).Returned?
    ensures inv.Some? ==>
              (secret + (points[i].1 * numerator * inv.value) % prime) % prime ==
              Eval(InterpolateUpTo(points, i + 1, prime).value, 0, prime)
  {
    var acc := InterpolateUpTo(points, i, prime).value;
    OuterStep(points, i, prime, acc);
    if inv.Some? {
      ZeroTermStep(points, i, prime, acc, secret, inv.value);
    }
  }

  /** ReconstructSpec read off the state the outer loop ends in. */
  lemma SpecFromLoop(shares: seq<Share>, prime: int)
    requires prime > 0 && |shares| > 0
    ensures var u := InterpolateUpTo(Points(shares), |shares|, prime);
            ReconstructSpec(shares, prime) == if u.Raised? then Raised(u.error) else Returned(Eval(u.value, 0, prime))
  {
  }

  // ---------------------------------------------------------------------
  // Properties

  /** An empty share list raises; otherwise reconstruction raises exactly
      when two indices coincide modulo the prime, since their difference
      makes a denominator 0 and `pow(0, -1, prime)` raises. */
  lemma ReconstructFailsIff(shares: seq<Share>, prime: int)
    requires IsPrime(prime)
    ensures |shares| == 0 ==> ReconstructSpec(shares, prime) == Raised(NoShares)
    ensures |shares| > 0 ==>
              (ReconstructSpec(shares, prime).Raised? <==> !DistinctMod(Xs(Points(shares)), prime))
    ensures |shares| > 0 && ReconstructSpec(shares, prime).Raised? ==>
              ReconstructSpec(shares, prime).error == NotInvertible
  {
    InterpolateSucceedsIff(Points(shares), prime);
  }

  /** Shares of a polynomial with at most as many coefficients as there are
      shares, at pairwise distinct indices, give back its constant term. */
  lemma ReconstructRecovers(shares: seq<Share>, c: seq<int>, prime: int)
    requires IsPrime(prime) && |shares| >= 1 && |c| <= |shares|
    requires DistinctMod(Xs(Points(shares)), prime)
    requires forall k :: 0 <= k < |shares| ==> shares[k].value % prime == Eval(c, shares[k].index, prime)
    ensures ReconstructSpec(shares, prime) == Returned(Coef(c, 0) % prime)
  {
    var points := Points(shares);
    assert forall k :: 0 <= k < |points| ==> Eval(c, points[k].0, prime) == points[k].1 % prime;
    InterpolateUnique(points, c, prime);
    var f := InterpolateSpec(points, prime).value.coefficients;
    assert Eval(f, 0, prime) == Eval(c, 0, prime);
    PolyValueAtZero(c, prime);
  }

  /** The round trip of the scheme: split a secret, keep any `threshold`
      or more of the shares in any order, and reconstruction returns the
      secret (reduced modulo the prime, which leaves a non-negative secret
      unchanged). */
  lemma SplitThenReconstruct(prime: int, secret: int, threshold: int, totalShares: int, draws: seq<int>, subset: seq<Share>)
    requires IsPrime(prime) && secret < prime && threshold <= totalShares < prime
    requires |draws| == Max(threshold - 1, 0)
    requires |subset| >= 1 && |subset| >= threshold
    requires forall s :: s in subset ==> s in Shares([secret] + draws, Max(totalShares, 0), prime)
    requires forall a, b :: 0 <= a < b < |subset| ==> subset[a].index != subset[b].index
    ensures ReconstructSpec(subset, prime) == Returned(secret % prime)
    ensures 0 <= secret ==> ReconstructSpec(subset, prime) == Returned(secret)
  {
    var c := [secret] + draws;
    var all := Shares(c, Max(totalShares, 0), prime);
    forall k | 0 <= k < |subset|
      ensures 1 <= subset[k].index < prime
      ensures subset[k].value % prime == Eval(c, subset[k].index, prime)
    {
      assert subset[k] in all;
      var j :| 0 <= j < |all| && all[j] == subset[k];
      ModMod(PolyValue(c, j + 1), prime);
    }
    var xs := Xs(Points(subset));
    forall a, b | 0 <= a < b < |xs|
      ensures xs[a] % prime != xs[b] % prime
    {
      ModSmall(xs[a], prime);
      ModSmall(xs[b], prime);
    }
    ReconstructRecovers(subset, c, prime);
    if 0 <= secret {
      ModSmall(secret, prime);
    }
  }

  /** The three reconstructions of the example run: five shares with
      threshold three, recombined from shares 1, 2, 3, from shares 1, 3, 5
      and from all five. */
  lemma ExampleSubsets(prime: int, secret: int, draws: seq<int>)
    requires IsPrime(prime) && 5 < prime && 0 <= secret < prime && |draws| == 2
    ensures var s := Shares([secret] + draws, 5, prime);
            ReconstructSpec([s[0], s[1], s[2]], prime) == Returned(secret) &&
            ReconstructSpec([s[0], s[2], s[4]], prime) == Returned(secret) &&
            ReconstructSpec(s, prime) == Returned(secret)
  {
    var s := Shares([secret] + draws, 5, prime);
    SplitThenReconstruct(prime, secret, 3, 5, draws, [s[0], s[1], s[2]]);
    SplitThenReconstruct(prime, secret, 3, 5, draws, [s[0], s[2], s[4]]);
    SplitThenReconstruct(prime, secret, 3, 5, draws, s);
  }
}
