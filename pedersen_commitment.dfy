/** The stand-alone Pedersen commitment scheme: commit to a secret s with a
    nonce t as g^s * h^t, open by revealing (s, t), and the attack that
    breaks binding when log_g(h) is known. The code as written reduces
    modulo q where the scheme reduces modulo p; both are modelled, and the
    properties the scheme promises are proved of the modulo-p version. */
module PedersenCommitmentScheme {
  import opened ModArith
  import opened Primes
  import opened Outcomes

  /** Public parameters: p prime, q a prime divisor of p - 1, g and h in
      the subgroup of order q. */
  datatype Context = Context(p: int, q: int, g: int, h: int)

  /** The committer's secret and nonce. */
  datatype CommitterContext = CommitterContext(s: nat, t: nat)

  datatype Commitment = Commitment(c: int)

  /** The opening revealed to the verifier. */
  datatype Proof = Proof(s: nat, t: nat)

  // ---------------------------------------------------------------------
  // commit and verify as written: every reduction is modulo q

  /** `commit` as written: pow(g, s, q) * pow(h, t, q) % q. */
  function Commit(ctx: Context, cc: CommitterContext): (r: Commitment)
    requires ctx.q > 0
    ensures 0 <= r.c < ctx.q
    ensures r.c == (Pow(ctx.g, cc.s) * Pow(ctx.h, cc.t)) % ctx.q
  {
    ModMul(Pow(ctx.g, cc.s), Pow(ctx.h, cc.t), ctx.q);
    Commitment((ModPow(ctx.g, cc.s, ctx.q) * ModPow(ctx.h, cc.t, ctx.q)) % ctx.q)
  }

  /** `verify` as written: it accepts exactly the commitment `commit`
      computes from the opening. */
  function Verify(ctx: Context, commitment: Commitment, proof: Proof): (r: bool)
    requires ctx.q > 0
    ensures r <==> commitment == Commit(ctx, CommitterContext(proof.s, proof.t))
  {
    commitment.c == (ModPow(ctx.g, proof.s, ctx.q) * ModPow(ctx.h, proof.t, ctx.q)) % ctx.q
  }

  // ---------------------------------------------------------------------
  // commit and verify modulo p, as the scheme and its documented output say

  /** `commit` as documented: g^s * h^t mod p. */
  function CommitModP(ctx: Context, cc: CommitterContext): (r: Commitment)
    requires ctx.p > 0
    ensures 0 <= r.c < ctx.p
    ensures r.c == (Pow(ctx.g, cc.s) * Pow(ctx.h, cc.t)) % ctx.p
  {
    ModMul(Pow(ctx.g, cc.s), Pow(ctx.h, cc.t), ctx.p);
    Commitment((ModPow(ctx.g, cc.s, ctx.p) * ModPow(ctx.h, cc.t, ctx.p)) % ctx.p)
  }

  /** `verify` as documented. */
  function VerifyModP(ctx: Context, commitment: Commitment, proof: Proof): (r: bool)
    requires ctx.p > 0
    ensures r <==> commitment == CommitModP(ctx, CommitterContext(proof.s, proof.t))
  {
    commitment.c == (ModPow(ctx.g, proof.s, ctx.p) * ModPow(ctx.h, proof.t, ctx.p)) % ctx.p
  }

  /** The happy path: the opening of a commitment verifies. */
  lemma OpeningVerifies(ctx: Context, cc: CommitterContext)
    requires ctx.p > 0 && ctx.q > 0
    ensures Verify(ctx, Commit(ctx, cc), Proof(cc.s, cc.t))
    ensures VerifyModP(ctx, CommitModP(ctx, cc), Proof(cc.s, cc.t))
  {
  }

  // ---------------------------------------------------------------------
  // The attack

  /** With h = g^2 modulo m, g^s * h^t is g^(s + 2t) modulo m. */
  lemma SquareBase(g: int, h: int, s: nat, t: nat, m: int)
    requires m > 0 && h % m == (g * g) % m
    ensures (Pow(g, s) * Pow(h, t)) % m == Pow(g, s + 2 * t) % m
  {
    var a, b, c := Pow(g, s), Pow(h, t), Pow(g * g, t);
    assert Pow(g, 1) == g;
    assert Pow(g, 2) == g * g;
    PowMul(g, 2, t);
    PowAdd(g, s, 2 * t);
    assert a * c == Pow(g, s + 2 * t);
    PowCongruent(h, g * g, t, m);
    ModMulRight(a, b, m);
    ModMulRight(a, c, m);
  }

  /** Binding breaks when h = g^2 modulo q: two openings with the same
      s + 2t give the same commitment. */
  lemma BindingBreak(ctx: Context, s: nat, t: nat, s': nat, t': nat)
    requires ctx.q > 0 && ctx.h % ctx.q == (ctx.g * ctx.g) % ctx.q && s + 2 * t == s' + 2 * t'
    ensures Commit(ctx, CommitterContext(s, t)) == Commit(ctx, CommitterContext(s', t'))
    ensures Verify(ctx, Commit(ctx, CommitterContext(s, t)), Proof(s', t'))
  {
    SquareBase(ctx.g, ctx.h, s, t, ctx.q);
    SquareBase(ctx.g, ctx.h, s', t', ctx.q);
  }

  /** The attacker's nonce for a fake secret: (s + 2t mod q - s') times the
      inverse of 2 modulo q, reduced modulo q; `pow(2, -1, q)` raises when
      2 has no inverse. It solves s' + 2t' = s + 2t modulo q. */
  function AttackNonce(ctx: Context, s: nat, t: nat, sFake: nat): (r: Outcome<nat>)
    requires ctx.q > 0
    ensures r.Returned? <==> Gcd(2 % ctx.q, ctx.q) == 1
    ensures r.Returned? ==> r.value < ctx.q && (sFake + 2 * r.value) % ctx.q == (s + 2 * t) % ctx.q
  {
    var q := ctx.q;
    var sPlus2t := (s + 2 * t) % q;
    match ModInverse(2, q)
    case None => Raised(NotInvertible)
    case Some(inv) =>
      var tFake := ((sPlus2t - sFake) * inv) % q;
      SolvesNonce(sPlus2t - sFake, inv, q);
      ModAddCongruent(2 * tFake, sPlus2t - sFake, sFake, q);
      ModAddLeft(s + 2 * t, 0, q);
      assert sPlus2t - sFake + sFake == (s + 2 * t) % q + 0;
      Returned(tFake)
  }

  /** 2 * (d * inv mod q) is d modulo q when inv inverts 2. */
  lemma SolvesNonce(d: int, inv: int, q: int)
    requires q > 0 && IsInverse(2, inv, q)
    ensures (2 * ((d * inv) % q)) % q == d % q
  {
    ModMulRight(2, d * inv, q);
    assert 2 * (d * inv) == d * (2 * inv);
    ModMulRight(d, 2 * inv, q);
    ModMulRight(d, 1, q);
  }

  /** The attack as the scheme intends it: when g has order dividing q
      modulo p and h = g^2 modulo p, the nonce the attacker computes opens
      the original commitment to any fake secret. */
  lemma AttackSucceeds(ctx: Context, s: nat, t: nat, sFake: nat)
    requires ctx.p > 1 && ctx.q > 0 && Pow(ctx.g, ctx.q) % ctx.p == 1
    requires ctx.h % ctx.p == (ctx.g * ctx.g) % ctx.p
    requires AttackNonce(ctx, s, t, sFake).Returned?
    ensures VerifyModP(ctx, CommitModP(ctx, CommitterContext(s, t)), Proof(sFake, AttackNonce(ctx, s, t, sFake).value))
  {
    var tFake := AttackNonce(ctx, s, t, sFake).value;
    ModSmall(1, ctx.p);
    SquareBase(ctx.g, ctx.h, s, t, ctx.p);
    SquareBase(ctx.g, ctx.h, sFake, tFake, ctx.p);
    PowExponentMod(ctx.g, s + 2 * t, ctx.q, ctx.p);
    PowExponentMod(ctx.g, sFake + 2 * tFake, ctx.q, ctx.p);
  }

  // ---------------------------------------------------------------------
  // The example run: p = 23, q = 11, g = 2, h = 4 = g^2

  function DemoContext(): Context
  {
    Context(23, 11, 2, 4)
  }

  /** The example parameters are weak in the way the attack needs: 2 has
      order 11 modulo 23 and 4 = 2^2; 2 is invertible modulo 11. */
  lemma DemoContextIsWeak()
    ensures Pow(DemoContext().g, DemoContext().q) % DemoContext().p == 1
    ensures DemoContext().h % DemoContext().p == (DemoContext().g * DemoContext().g) % DemoContext().p
    ensures ModInverse(2, DemoContext().q).Some?
  {
    assert Pow(2, 11) == 2048;
    DemoInverseOfTwo();
  }

  /** pow(2, -1, 11) is 6. */
  lemma DemoInverseOfTwo()
    ensures ModInverse(2, 11) == Some(6)
  {
    var r := ModInverse(2, 11);
    assert IsInverse(2, 6, 11);
    InverseUnique(2, r.value, 6, 11);
  }

  /** Modulo p the example run gives the documented values: c = 9 for
      (s, t) = (3, 1) and c = 4 for (3, 5). */
  lemma DemoCommitsModP()
    ensures CommitModP(DemoContext(), CommitterContext(3, 1)).c == 9
    ensures CommitModP(DemoContext(), CommitterContext(3, 5)).c == 4
  {
    assert Pow(2, 3) == 8 && Pow(4, 1) == 4;
    assert Pow(4, 5) == 1024;
  }

  /** The attacker's nonce in the example run: 4 for the fake secret 5, and
      1 for the fake secret 0. */
  lemma DemoNonces()
    ensures AttackNonce(DemoContext(), 3, 5, 5) == Returned(4)
    ensures AttackNonce(DemoContext(), 3, 5, 0) == Returned(1)
  {
    DemoInverseOfTwo();
    NonceValue(DemoContext(), 3, 5, 5, 6);
    NonceValue(DemoContext(), 3, 5, 0, 6);
  }

  /** The nonce once the inverse of 2 is known. */
  lemma NonceValue(ctx: Context, s: nat, t: nat, sFake: nat, inv: int)
    requires ctx.q > 0 && ModInverse(2, ctx.q) == Some(inv)
    ensures AttackNonce(ctx, s, t, sFake) == Returned(((s + 2 * t) % ctx.q - sFake) * inv % ctx.q)
  {
  }

  /** Modulo p the fake opening of the example run verifies, for every
      fake secret. */
  lemma DemoAttackModP(sFake: nat)
    ensures AttackNonce(DemoContext(), 3, 5, sFake).Returned?
    ensures VerifyModP(DemoContext(), CommitModP(DemoContext(), CommitterContext(3, 5)),
                       Proof(sFake, AttackNonce(DemoContext(), 3, 5, sFake).value))
  {
    DemoContextIsWeak();
    AttackSucceeds(DemoContext(), 3, 5, sFake);
  }

  /** As written, modulo q, the example run does not give the documented
      commitment 9 but 10, and the attack holds for s' = 5 only because
      s + 2t and s' + 2t' coincide as integers there; for s' = 0 the fake
      nonce is 1 and the fake opening is rejected, since 2 has order 10,
      not 11, modulo 11. */
  lemma DemoAsWritten()
    ensures Commit(DemoContext(), CommitterContext(3, 1)).c == 10
    ensures Verify(DemoContext(), Commit(DemoContext(), CommitterContext(3, 5)), Proof(5, 4))
    ensures AttackNonce(DemoContext(), 3, 5, 0) == Returned(1)
    ensures !Verify(DemoContext(), Commit(DemoContext(), CommitterContext(3, 5)), Proof(0, 1))
  {
    DemoNonces();
    DemoCommitValues();
    BindingBreak(DemoContext(), 3, 5, 5, 4);
  }

  /** The commitments of the example, computed modulo q = 11. */
  lemma DemoCommitValues()
    ensures Commit(DemoContext(), CommitterContext(3, 1)).c == 10
    ensures Commit(DemoContext(), CommitterContext(3, 5)).c == 8
    ensures Commit(DemoContext(), CommitterContext(0, 1)).c == 4
  {
    assert Pow(2, 3) == 8 && Pow(4, 1) == 4 && Pow(2, 0) == 1;
    assert Pow(4, 5) == 1024;
  }
}
