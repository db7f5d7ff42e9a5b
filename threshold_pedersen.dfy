/** A threshold scheme on top of Pedersen commitments: the dealer commits
    to the secret s with randomness t as E0 = g^s * h^t mod p, shares s and
    t with two polynomials F and G over Z_q (F(0) = s, G(0) = t), and any k
    participants recover (s, t) modulo q by Lagrange interpolation at 0,
    which opens E0 again when g and h have order dividing q. */
module ThresholdPedersen {
  import opened ModArith
  import opened Primes
  import opened PolyMath
  import opened Polynomials
  import opened Outcomes
  import opened LagrangeZero

  /** Public parameters: primes p and q with q | p - 1, and g, h in the
      subgroup of order q. */
  datatype Context = Context(p: int, q: int, g: int, h: int)

  datatype Commitment = Commitment(c: int)

  /** The opening of a commitment: the secret and the randomness. */
  datatype Proof = Proof(s: nat, t: nat)

  // ---------------------------------------------------------------------
  // pedersen_commit, pedersen_verify

  /** `pedersen_commit`: g^s * h^t mod p. */
  function PedersenCommit(ctx: Context, s: nat, t: nat): (r: Commitment)
    requires ctx.p > 0
    ensures 0 <= r.c < ctx.p
  {
    Commitment((ModPow(ctx.g, s, ctx.p) * ModPow(ctx.h, t, ctx.p)) % ctx.p)
  }

  /** `pedersen_verify` accepts exactly the commitment `pedersen_commit`
      computes from the opening. */
  function PedersenVerify(ctx: Context, commitment: Commitment, proof: Proof): (r: bool)
    requires ctx.p > 0
    ensures r <==> commitment == PedersenCommit(ctx, proof.s, proof.t)
  {
    commitment.c == (ModPow(ctx.g, proof.s, ctx.p) * ModPow(ctx.h, proof.t, ctx.p)) % ctx.p
  }

  /** The order of g and h divides q: g^q = h^q = 1 modulo p. */
  predicate OrderDividesQ(ctx: Context)
  {
    ctx.p > 1 && ctx.q > 0 && Pow(ctx.g, ctx.q) % ctx.p == 1 && Pow(ctx.h, ctx.q) % ctx.p == 1
  }

  /** When g and h have order dividing q, a commitment depends on the
      opening modulo q only. */
  lemma CommitModQ(ctx: Context, s: nat, t: nat)
    requires OrderDividesQ(ctx)
    ensures PedersenCommit(ctx, s % ctx.q, t % ctx.q) == PedersenCommit(ctx, s, t)
  {
    ModSmall(1, ctx.p);
    PowExponentMod(ctx.g, s, ctx.q, ctx.p);
    PowExponentMod(ctx.h, t, ctx.q, ctx.p);
  }

  // ---------------------------------------------------------------------
  // make_random_polynomial, eval_polynomial

  /** `make_random_polynomial`: the constant term followed by the `degree`
      draws of `random.randint(0, q - 1)`. */
  method MakeRandomPolynomial(degree: int, constantTerm: int, q: int, draws: seq<int>) returns (poly: seq<int>)
    requires |draws| == Max(degree, 0)
    requires forall k :: 0 <= k < |draws| ==> 0 <= draws[k] <= q - 1
    ensures |poly| == Max(degree, 0) + 1 && poly[0] == constantTerm
    ensures poly[1..] == draws
  {
    poly := [constantTerm];
    for k := 0 to |draws|
      invariant poly == [constantTerm] + draws[..k]
    {
      poly := poly + [draws[k]];
    }
    assert draws[..|draws|] == draws;
  }

  /** `eval_polynomial`: each term is reduced modulo q before it is added. */
  method EvalPolynomial(poly: seq<int>, x: int, q: int) returns (r: int)
    requires q > 0
    ensures r == Eval(poly, x, q)
  {
    var result, powerOfX := 0, 1;
    for i := 0 to |poly|
      invariant result == Eval(poly[..i], x, q)
      invariant powerOfX % q == Pow(x, i) % q
    {
      EvalLoopStep(poly, i, x, q, result, powerOfX);
      var term := (poly[i] * powerOfX) % q;
      ModAddLeft(poly[i] * powerOfX, result, q);
      result := (result + term) % q;
      powerOfX := (powerOfX * x) % q;
    }
    assert poly[..|poly|] == poly;
    r := result;
  }

  // ---------------------------------------------------------------------
  // Dealer.distribute

  /** The shares F(1), ..., F(n) modulo q. */
  function ShareValues(poly: seq<int>, n: nat, q: int): (r: seq<int>)
    requires q > 0
    ensures |r| == n
  {
    seq(n, i requires 0 <= i < n => Eval(poly, i + 1, q))
  }

  /** The commitments E_i = g^(F_i) * h^(G_i) to the coefficients 1..count. */
  function CoefficientCommitments(ctx: Context, f: seq<nat>, g: seq<nat>, count: nat): (r: seq<Commitment>)
    requires ctx.p > 0 && count < |f| && count < |g|
    ensures |r| == count
  {
    seq(count, i requires 0 <= i < count => PedersenCommit(ctx, f[i + 1], g[i + 1]))
  }

  /** The dealer: public parameters, n participants, threshold k. */
  datatype Dealer = Dealer(context: Context, n: int, k: int)
  {
    /** `distribute`: t, F's and G's coefficients are the random draws.
        The coefficient commitments E_1..E_(k-1), which the dealer prints,
        are returned in `printed`. */
    method Distribute(s: nat, t: nat, fDraws: seq<nat>, gDraws: seq<nat>)
      returns (e0: Commitment, fPoly: seq<nat>, gPoly: seq<nat>, allS: seq<int>, allT: seq<int>, printed: seq<Commitment>)
      requires context.p > 0 && context.q > 0 && t <= context.q - 1
      requires |fDraws| == Max(k - 1, 0) && |gDraws| == Max(k - 1, 0)
      requires forall i :: 0 <= i < |fDraws| ==> fDraws[i] <= context.q - 1
      requires forall i :: 0 <= i < |gDraws| ==> gDraws[i] <= context.q - 1
      ensures e0 == PedersenCommit(context, s, t)
      ensures fPoly == [s] + fDraws && gPoly == [t] + gDraws
      ensures |fPoly| == |gPoly| == Max(k, 1)
      ensures allS == ShareValues(fPoly, Max(n, 0), context.q)
      ensures allT == ShareValues(gPoly, Max(n, 0), context.q)
      ensures printed == CoefficientCommitments(context, fPoly, gPoly, Max(k - 1, 0))
    {
      var q := context.q;
      e0 := PedersenCommit(context, s, t);
      var f := MakeRandomPolynomial(k - 1, s, q, fDraws);
      var g := MakeRandomPolynomial(k - 1, t, q, gDraws);
      fPoly := [s] + fDraws;
      gPoly := [t] + gDraws;
      assert f == fPoly && g == gPoly;
      printed := [];
      for i := 1 to Max(k, 1)
        invariant printed == CoefficientCommitments(context, fPoly, gPoly, i - 1)
      {
        var ei := PedersenCommit(context, fPoly[i], gPoly[i]);
        printed := printed + [ei];
      }
      allS, allT := [], [];
      for i := 0 to Max(n, 0)
        invariant allS == ShareValues(fPoly, i, q)
        invariant allT == ShareValues(gPoly, i, q)
      {
        var si := EvalPolynomial(f, i + 1, q);
        var ti := EvalPolynomial(g, i + 1, q);
        allS := allS + [si];
        allT := allT + [ti];
      }
    }
  }

  // ---------------------------------------------------------------------
  // reconstruct_secret

  /** The participant indices paired with their share values. */
  function Pair(indices: seq<int>, ys: seq<int>): (r: seq<(int, int)>)
    requires |ys| >= |indices|
    ensures |r| == |indices| && forall m :: 0 <= m < |r| ==> r[m] == (indices[m], ys[m])
  {
    seq(|indices|, m requires 0 <= m < |indices| => (indices[m], ys[m]))
  }

  /** The indices as points; `lagrange_basis_x0` looks at x only. */
  function XPoints(indices: seq<int>): (r: seq<(int, int)>)
    ensures |r| == |indices| && forall m :: 0 <= m < |r| ==> r[m].0 == indices[m]
  {
    seq(|indices|, m requires 0 <= m < |indices| => (indices[m], 0))
  }

  /** What `lagrange_basis_x0` returns or raises for index i: num / den
      modulo q. */
  function BasisX0(indices: seq<int>, i: nat, q: int): Outcome<int>
    requires q > 0 && i < |indices|
  {
    var points := XPoints(indices);
    match ModInverse(Denominator(points, i, |indices|, q), q)
    case None => Raised(NotInvertible)
    case Some(inv) => Returned((ZeroNumerator(points, i, |indices|, q) * inv) % q)
  }

  /** `lagrange_basis_x0`: the numerator takes (-x_m) mod q and the
      denominator (x_i - x_m) mod q, and `pow(den, -1, q)` raises when den
      has no inverse. */
  method LagrangeBasisX0(iIdx: nat, allIndices: seq<int>, modQ: int) returns (r: Outcome<int>)
    requires modQ > 0 && iIdx < |allIndices|
    ensures r == BasisX0(allIndices, iIdx, modQ)
  {
    var points := XPoints(allIndices);
    var xi := allIndices[iIdx];
    var num, den := 1, 1;
    for m := 0 to |allIndices|
      invariant num == ZeroNumerator(points, iIdx, m, modQ)
      invariant den == Denominator(points, iIdx, m, modQ)
    {
      if m != iIdx {
        var xm := allIndices[m];
        ModMulRight(num, -xm, modQ);
        ModMulRight(den, xi - xm, modQ);
        assert ZeroNumerator(points, iIdx, m + 1, modQ) == (num * (-xm % modQ)) % modQ;
        var diff := (xi - xm) % modQ;
        assert Denominator(points, iIdx, m + 1, modQ) == (den * diff) % modQ;
        num := (num * (-xm % modQ)) % modQ;
        den := (den * diff) % modQ;
      } else {
        assert ZeroNumerator(points, iIdx, m + 1, modQ) == ZeroNumerator(points, iIdx, m, modQ);
        assert Denominator(points, iIdx, m + 1, modQ) == Denominator(points, iIdx, m, modQ);
      }
    }
    var denInv := ModInverse(den, modQ);
    if denInv.None? {
      return Raised(NotInvertible);
    }
    r := Returned((num * denInv.value) % modQ);
  }

  /** What `reconstruct_secret` returns or raises: the values at 0 of the
      polynomials `interpolate` builds through (x_i, s_i) and (x_i, t_i). */
  function ReconstructSpec(indices: seq<int>, sharesS: seq<int>, sharesT: seq<int>, q: int): Outcome<(int, int)>
    requires q > 0 && |sharesS| >= |indices| && |sharesT| >= |indices|
  {
    var k := |indices|;
    match InterpolateUpTo(Pair(indices, sharesS), k, q)
    case Raised(e) => Raised(e)
    case Returned(f) =>
      match InterpolateUpTo(Pair(indices, sharesT), k, q)
      case Raised(e) => Raised(e)
      case Returned(g) => Returned((Eval(f, 0, q), Eval(g, 0, q)))
  }

  /** After the outer loop of `reconstruct_secret` has handled the first i
      points, `interpolate` has built acc so far and the running sum v is
      its value at 0. */
  ghost predicate SumSoFar(points: seq<(int, int)>, i: nat, q: int, acc: seq<int>, v: int)
  {
    q > 0 && i <= |points| && InterpolateUpTo(points, i, q) == Returned(acc) && v == Eval(acc, 0, q)
  }

  /** `reconstruct_secret`: both sums use the same basis value L_i(0). */
  method ReconstructSecret(ctx: Context, indices: seq<int>, sharesS: seq<int>, sharesT: seq<int>) returns (r: Outcome<(int, int)>)
    requires ctx.q > 0 && |sharesS| >= |indices| && |sharesT| >= |indices|
    ensures r == ReconstructSpec(indices, sharesS, sharesT, ctx.q)
  {
    var q := ctx.q;
    ghost var ps, pt := Pair(indices, sharesS), Pair(indices, sharesT);
    var sRec, tRec := 0, 0;
    ghost var accS, accT := [0], [0];
    ZeroPolynomialEval(0, q);
    for iIdx := 0 to |indices|
      invariant SumSoFar(ps, iIdx, q, accS, sRec) && SumSoFar(pt, iIdx, q, accT, tRec)
    {
      var ok;
      ok, sRec, tRec, accS, accT := ReconstructRound(indices, sharesS, sharesT, iIdx, q, sRec, tRec, accS, accT);
      if !ok {
        SpecRaised(indices, sharesS, sharesT, q);
        return Raised(NotInvertible);
      }
    }
    SpecReturned(indices, sharesS, sharesT, q, accS, accT, sRec, tRec);
    r := Returned((sRec, tRec));
  }

  /** ReconstructSpec where `interpolate` raises. */
  lemma SpecRaised(indices: seq<int>, sharesS: seq<int>, sharesT: seq<int>, q: int)
    requires q > 0 && |sharesS| >= |indices| && |sharesT| >= |indices|
    requires InterpolateUpTo(Pair(indices, sharesS), |indices|, q) == Raised(NotInvertible)
    ensures ReconstructSpec(indices, sharesS, sharesT, q) == Raised(NotInvertible)
  {
  }

  /** ReconstructSpec where both interpolations return. */
  lemma SpecReturned(indices: seq<int>, sharesS: seq<int>, sharesT: seq<int>, q: int, f: seq<int>, g: seq<int>, s: int, t: int)
    requires |sharesS| >= |indices| && |sharesT| >= |indices|
    requires SumSoFar(Pair(indices, sharesS), |indices|, q, f, s)
    requires SumSoFar(Pair(indices, sharesT), |indices|, q, g, t)
    ensures ReconstructSpec(indices, sharesS, sharesT, q) == Returned((s, t))
  {
  }

  /** The body of the outer loop of `reconstruct_secret` for participant
      i: it computes L_i(0) once and adds s_i * L_i(0) and t_i * L_i(0) to
      the two sums, or reports the raise of `lagrange_basis_x0`. */
  method ReconstructRound(indices: seq<int>, sharesS: seq<int>, sharesT: seq<int>, i: nat, q: int,
                          sRec: int, tRec: int, ghost accS: seq<int>, ghost accT: seq<int>)
    returns (ok: bool, sNext: int, tNext: int, ghost accS': seq<int>, ghost accT': seq<int>)
    requires i < |indices| && |sharesS| >= |indices| && |sharesT| >= |indices|
    requires SumSoFar(Pair(indices, sharesS), i, q, accS, sRec)
    requires SumSoFar(Pair(indices, sharesT), i, q, accT, tRec)
    ensures !ok ==> InterpolateUpTo(Pair(indices, sharesS), |indices|, q) == Raised(NotInvertible)
    ensures ok ==> SumSoFar(Pair(indices, sharesS), i + 1, q, accS', sNext)
    ensures ok ==> SumSoFar(Pair(indices, sharesT), i + 1, q, accT', tNext)
  {
    var l := LagrangeBasisX0(i, indices, q);
    if l.Raised? {
      BasisRaises(indices, sharesS, i, q, accS);
      return false, sRec, tRec, accS, accT;
    }
    var li := l.value;
    BasisStep(indices, sharesS, i, q, accS, sRec, li);
    BasisStep(indices, sharesT, i, q, accT, tRec, li);
    ok, sNext, tNext := true, (sRec + sharesS[i] * li) % q, (tRec + sharesT[i] * li) % q;
    accS' := InterpolateUpTo(Pair(indices, sharesS), i + 1, q).value;
    accT' := InterpolateUpTo(Pair(indices, sharesT), i + 1, q).value;
  }

  /** One round of the outer loop of `reconstruct_secret` for one of the
      two sums: adding y_i * L_i(0) adds the value at 0 of the scaled
      basis polynomial `interpolate` adds. */
  lemma BasisStep(indices: seq<int>, ys: seq<int>, i: nat, q: int, acc: seq<int>, secret: int, li: int)
    requires q > 0 && i < |indices| && |ys| >= |indices|
    requires InterpolateUpTo(Pair(indices, ys), i, q) == Returned(acc) && secret == Eval(acc, 0, q)
    requires BasisX0(indices, i, q) == Returned(li)
    ensures InterpolateUpTo(Pair(indices, ys), i + 1, q).Returned?
    ensures (secret + ys[i] * li) % q == Eval(InterpolateUpTo(Pair(indices, ys), i + 1, q).value, 0, q)
  {
    var points, xp, k := Pair(indices, ys), XPoints(indices), |indices|;
    SameXs(xp, points, i, k, q);
    var d, num := Denominator(points, i, k, q), ZeroNumerator(points, i, k, q);
    assert Denominator(xp, i, k, q) == d && ZeroNumerator(xp, i, k, q) == num;
    var inv := ModInverse(d, q).value;
    assert li == (num * inv) % q;
    var y := ys[i];
    assert points[i].1 == y;
    ZeroTermStep(points, i, q, acc, secret, inv);
    AddTermCongruent(secret, y, num, inv, q);
    assert (secret + y * li) % q == (secret + (y * num * inv) % q) % q;
  }

  /** Where `lagrange_basis_x0` raises for participant i, `interpolate`
      through the same indices raises too. */
  lemma BasisRaises(indices: seq<int>, ys: seq<int>, i: nat, q: int, acc: seq<int>)
    requires q > 0 && i < |indices| && |ys| >= |indices|
    requires InterpolateUpTo(Pair(indices, ys), i, q) == Returned(acc)
    requires BasisX0(indices, i, q).Raised?
    ensures InterpolateUpTo(Pair(indices, ys), |indices|, q) == Raised(NotInvertible)
  {
    var points, xp, k := Pair(indices, ys), XPoints(indices), |indices|;
    SameXs(xp, points, i, k, q);
    OuterStep(points, i, q, acc);
  }

  /** Reducing num * inv before multiplying by y leaves the sum modulo q
      unchanged. */
  lemma AddTermCongruent(secret: int, y: int, num: int, inv: int, q: int)
    requires q > 0
    ensures (secret + y * ((num * inv) % q)) % q == (secret + (y * num * inv) % q) % q
  {
    ModMulRight(y, num * inv, q);
    assert y * (num * inv) == y * num * inv;
    ModAddLeft(y * ((num * inv) % q), secret, q);
    ModAddLeft(y * num * inv, secret, q);
    assert secret + y * ((num * inv) % q) == y * ((num * inv) % q) + secret;
    assert secret + (y * num * inv) % q == (y * num * inv) % q + secret;
  }

  // ---------------------------------------------------------------------
  // Properties

  /** Reconstruction raises exactly when two indices coincide modulo the
      prime q. */
  lemma ReconstructFailsIff(indices: seq<int>, sharesS: seq<int>, sharesT: seq<int>, q: int)
    requires IsPrime(q) && |sharesS| >= |indices| && |sharesT| >= |indices|
    ensures ReconstructSpec(indices, sharesS, sharesT, q).Raised? <==> !DistinctMod(indices, q)
    ensures ReconstructSpec(indices, sharesS, sharesT, q).Raised? ==>
              ReconstructSpec(indices, sharesS, sharesT, q).error == NotInvertible
  {
    var ps, pt := Pair(indices, sharesS), Pair(indices, sharesT);
    assert Xs(ps) == indices && Xs(pt) == indices;
    InterpolateSucceedsIff(ps, q);
    InterpolateSucceedsIff(pt, q);
    RaisedIsNotInvertible(ps, |indices|, q);
    RaisedIsNotInvertible(pt, |indices|, q);
  }

  /** k shares of F and G at indices distinct modulo the prime q, with F and
      G of at most k coefficients, give back (F(0) mod q, G(0) mod q). */
  lemma ReconstructRecovers(indices: seq<int>, sharesS: seq<int>, sharesT: seq<int>, f: seq<int>, g: seq<int>, q: int)
    requires IsPrime(q) && |sharesS| >= |indices| && |sharesT| >= |indices|
    requires DistinctMod(indices, q) && |f| <= |indices| && |g| <= |indices|
    requires forall m :: 0 <= m < |indices| ==> sharesS[m] % q == Eval(f, indices[m], q)
    requires forall m :: 0 <= m < |indices| ==> sharesT[m] % q == Eval(g, indices[m], q)
    ensures ReconstructSpec(indices, sharesS, sharesT, q) == Returned((Coef(f, 0) % q, Coef(g, 0) % q))
  {
    var ps, pt := Pair(indices, sharesS), Pair(indices, sharesT);
    assert Xs(ps) == indices && Xs(pt) == indices;
    InterpolateUnique(ps, f, q);
    InterpolateUnique(pt, g, q);
    PolyValueAtZero(f, q);
    PolyValueAtZero(g, q);
  }

  /** The scheme end to end: k or more of the dealer's share pairs, taken at
      distinct participants, reconstruct (s mod q, t mod q), and that pair
      opens the dealer's commitment E0 when g and h have order dividing q. */
  lemma DistributeThenReconstruct(ctx: Context, k: int, n: int, s: nat, t: nat, fDraws: seq<nat>, gDraws: seq<nat>, chosen: seq<int>)
    requires IsPrime(ctx.q) && OrderDividesQ(ctx) && n < ctx.q
    requires |fDraws| == Max(k - 1, 0) && |gDraws| == Max(k - 1, 0)
    requires |chosen| >= Max(k, 1)
    requires forall m :: 0 <= m < |chosen| ==> 1 <= chosen[m] <= n
    requires forall a, b :: 0 <= a < b < |chosen| ==> chosen[a] != chosen[b]
    ensures var q := ctx.q;
            var allS := ShareValues([s] + fDraws, Max(n, 0), q);
            var allT := ShareValues([t] + gDraws, Max(n, 0), q);
            var subS := seq(|chosen|, m requires 0 <= m < |chosen| => allS[chosen[m] - 1]);
            var subT := seq(|chosen|, m requires 0 <= m < |chosen| => allT[chosen[m] - 1]);
            var r := ReconstructSpec(chosen, subS, subT, q);
            r == Returned((s % q, t % q)) &&
            PedersenCommit(ctx, r.value.0, r.value.1) == PedersenCommit(ctx, s, t)
  {
    var q := ctx.q;
    var f, g := [s] + fDraws, [t] + gDraws;
    var allS := ShareValues(f, Max(n, 0), q);
    var allT := ShareValues(g, Max(n, 0), q);
    var subS := seq(|chosen|, m requires 0 <= m < |chosen| => allS[chosen[m] - 1]);
    var subT := seq(|chosen|, m requires 0 <= m < |chosen| => allT[chosen[m] - 1]);
    forall a, b | 0 <= a < b < |chosen|
      ensures chosen[a] % q != chosen[b] % q
    {
      ModSmall(chosen[a], q);
      ModSmall(chosen[b], q);
    }
    forall m | 0 <= m < |chosen|
      ensures subS[m] % q == Eval(f, chosen[m], q) && subT[m] % q == Eval(g, chosen[m], q)
    {
      ModMod(PolyValue(f, chosen[m]), q);
      ModMod(PolyValue(g, chosen[m]), q);
    }
    ReconstructRecovers(chosen, subS, subT, f, g, q);
    CommitModQ(ctx, s, t);
  }
}
