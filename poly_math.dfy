/** Polynomials as coefficient lists [c0, c1, ..., cd] (constant term first):
    their value over the integers, their value modulo p, and the fact that
    interpolation rests on: modulo a prime, a polynomial with at most k
    coefficients that vanishes at k distinct points vanishes everywhere. */
module PolyMath {
  import opened ModArith
  import opened Primes

  /** c[0] + c[1]*x + ... + c[d]*x^d over the integers (Horner form). */
  function PolyValue(c: seq<int>, x: int): int
  {
    if |c| == 0 then 0 else c[0] + x * PolyValue(c[1..], x)
  }

  /** The value of c at x modulo p: what every `evaluate` loop of the
      repository returns. */
  function Eval(c: seq<int>, x: int, p: int): (r: int)
    requires p > 0
    ensures 0 <= r < p
  {
    PolyValue(c, x) % p
  }

  /** Coefficient i of c, zero past its end. */
  function Coef(c: seq<int>, i: int): int
  {
    if 0 <= i < |c| then c[i] else 0
  }

  function Tail(c: seq<int>): seq<int>
  {
    if |c| == 0 then [] else c[1..]
  }

  function Max(a: int, b: int): int
  {
    if a < b then b else a
  }

  /** Coefficient-wise sum, the shorter list padded with zeros. */
  function PadAdd(a: seq<int>, b: seq<int>): (r: seq<int>)
    ensures |r| == Max(|a|, |b|)
  {
    seq(Max(|a|, |b|), i requires 0 <= i < Max(|a|, |b|) => Coef(a, i) + Coef(b, i))
  }

  /** Every coefficient multiplied by s. */
  function Scale(c: seq<int>, s: int): (r: seq<int>)
    ensures |r| == |c|
  {
    seq(|c|, i requires 0 <= i < |c| => s * c[i])
  }

  function Zeros(n: nat): (r: seq<int>)
    ensures |r| == n && forall i :: 0 <= i < n ==> r[i] == 0
  {
    seq(n, i => 0)
  }

  /** Pairwise distinct modulo p. */
  predicate DistinctMod(xs: seq<int>, p: int)
    requires p > 0
  {
    forall i, j :: 0 <= i < j < |xs| ==> xs[i] % p != xs[j] % p
  }

  // ---------------------------------------------------------------------
  // Value of the basic operations

  lemma PolyValueHead(c: seq<int>, x: int)
    ensures PolyValue(c, x) == Coef(c, 0) + x * PolyValue(Tail(c), x)
  {
  }

  lemma PolyValueAtZero(c: seq<int>, p: int)
    requires p > 0
    ensures Eval(c, 0, p) == Coef(c, 0) % p
  {
  }

  /** Appending a top coefficient adds a * x^|c|. */
  lemma {:induction false} PolyValueSnoc(c: seq<int>, a: int, x: int)
    ensures PolyValue(c + [a], x) == PolyValue(c, x) + a * Pow(x, |c|)
    decreases |c|
  {
    if |c| == 0 {
      assert PolyValue([a], x) == a + x * PolyValue([], x);
    } else {
      assert (c + [a])[1..] == c[1..] + [a];
      PolyValueSnoc(c[1..], a, x);
      var v, w := PolyValue(c[1..], x), Pow(x, |c| - 1);
      calc {
        PolyValue(c + [a], x);
        c[0] + x * (v + a * w);
        { Distrib(x, v, a * w); MulSwap(x, a, w); }
        c[0] + x * v + a * (x * w);
      }
    }
  }

  /** The value of the first i + 1 coefficients, from that of the first i:
      the step of every accumulator loop that evaluates a polynomial. */
  lemma PolyValuePrefix(c: seq<int>, i: nat, x: int)
    requires i < |c|
    ensures PolyValue(c[..i + 1], x) == PolyValue(c[..i], x) + c[i] * Pow(x, i)
  {
    assert c[..i + 1] == c[..i] + [c[i]];
    PolyValueSnoc(c[..i], c[i], x);
  }

  /** One step of the accumulator loop shared by every `evaluate` of the
      repository: `result = (result + c[i] * power) % p` and
      `power = (power * x) % p` keep result == Eval(c[..i]) and
      power == x^i modulo p. */
  lemma EvalLoopStep(c: seq<int>, i: nat, x: int, p: int, result: int, power: int)
    requires p > 0 && i < |c|
    requires result == Eval(c[..i], x, p) && power % p == Pow(x, i) % p
    ensures (result + c[i] * power) % p == Eval(c[..i + 1], x, p)
    ensures ((power * x) % p) % p == Pow(x, i + 1) % p
  {
    PolyValuePrefix(c, i, x);
    var v, w := PolyValue(c[..i], x), Pow(x, i);
    ModMod(v, p);
    SumProductCongruent(result, v, c[i], power, w, p);
    ModMulCongruent(power, w, x, p);
    ModMod(power * x, p);
    assert Pow(x, i + 1) == x * w;
  }

  /** r + a * q and v + a * w agree modulo p when r, v and q, w do. */
  lemma SumProductCongruent(r: int, v: int, a: int, q: int, w: int, p: int)
    requires p > 0 && r % p == v % p && q % p == w % p
    ensures (r + a * q) % p == (v + a * w) % p
  {
    ModMulRight(a, q, p);
    ModMulRight(a, w, p);
    ModAdd(r, a * q, p);
    ModAdd(v, a * w, p);
  }

  lemma {:induction false} PolyValuePadAdd(a: seq<int>, b: seq<int>, x: int)
    ensures PolyValue(PadAdd(a, b), x) == PolyValue(a, x) + PolyValue(b, x)
    decreases |a| + |b|
  {
    var r := PadAdd(a, b);
    if |r| > 0 {
      assert r[1..] == PadAdd(Tail(a), Tail(b));
      PolyValuePadAdd(Tail(a), Tail(b), x);
      PolyValueHead(a, x);
      PolyValueHead(b, x);
      Distrib(x, PolyValue(Tail(a), x), PolyValue(Tail(b), x));
    }
  }

  lemma {:induction false} PolyValueScale(c: seq<int>, s: int, x: int)
    ensures PolyValue(Scale(c, s), x) == s * PolyValue(c, x)
    decreases |c|
  {
    if |c| > 0 {
      assert Scale(c, s)[1..] == Scale(c[1..], s);
      PolyValueScale(c[1..], s, x);
      var v := PolyValue(c[1..], x);
      Distrib(s, c[0], x * v);
      MulSwap(x, s, v);
    }
  }

  lemma {:induction false} PolyValueZerosRight(c: seq<int>, n: nat, x: int)
    ensures PolyValue(c + Zeros(n), x) == PolyValue(c, x)
    decreases |c| + n
  {
    if |c| > 0 {
      assert (c + Zeros(n))[1..] == c[1..] + Zeros(n);
      PolyValueZerosRight(c[1..], n, x);
    } else if n > 0 {
      assert (c + Zeros(n)) == Zeros(n);
      assert Zeros(n)[1..] == [] + Zeros(n - 1);
      PolyValueZerosRight([], n - 1, x);
    }
  }

  lemma {:induction false} PolyValueZerosLeft(c: seq<int>, n: nat, x: int)
    ensures PolyValue(Zeros(n) + c, x) == Pow(x, n) * PolyValue(c, x)
    decreases n
  {
    if n > 0 {
      assert (Zeros(n) + c)[0] == 0;
      assert (Zeros(n) + c)[1..] == Zeros(n - 1) + c;
      PolyValueZerosLeft(c, n - 1, x);
      var w, v := Pow(x, n - 1), PolyValue(c, x);
      assert PolyValue(Zeros(n) + c, x) == 0 + x * (w * v);
      assert Pow(x, n) == x * w;
      MulSwap(x, w, v);
    } else {
      assert Zeros(n) + c == c;
    }
  }

  /** Coefficient lists that agree modulo p have the same value modulo p. */
  lemma {:induction false} PolyValueCongruent(a: seq<int>, b: seq<int>, x: int, p: int)
    requires p > 0 && |a| == |b|
    requires forall i :: 0 <= i < |a| ==> a[i] % p == b[i] % p
    ensures PolyValue(a, x) % p == PolyValue(b, x) % p
    decreases |a|
  {
    if |a| > 0 {
      PolyValueCongruent(a[1..], b[1..], x, p);
      var va, vb := PolyValue(a[1..], x), PolyValue(b[1..], x);
      ModMulRight(x, va, p);
      ModMulRight(x, vb, p);
      ModAdd(a[0], x * va, p);
      ModAdd(b[0], x * vb, p);
    }
  }

  // ---------------------------------------------------------------------
  // Synthetic division and the root bound

  /** The quotient of c(x) - c(r) by (x - r). */
  function Quotient(c: seq<int>, r: int): (q: seq<int>)
    ensures |q| == if |c| == 0 then 0 else |c| - 1
    decreases |c|
  {
    if |c| == 0 then [] else PadAdd(c[1..], Scale(Quotient(c[1..], r), r))
  }

  /** c(x) == c(r) + (x - r) * q(x) over the integers. */
  lemma {:induction false} SyntheticDivision(c: seq<int>, r: int, x: int)
    ensures PolyValue(c, x) == PolyValue(c, r) + (x - r) * PolyValue(Quotient(c, r), x)
    decreases |c|
  {
    if |c| > 0 {
      var t := c[1..];
      SyntheticDivision(t, r, x);
      var q := Quotient(t, r);
      PolyValuePadAdd(t, Scale(q, r), x);
      PolyValueScale(q, r, x);
      var tx, tr, qx := PolyValue(t, x), PolyValue(t, r), PolyValue(q, x);
      // tx == tr + (x - r) * qx
      assert PolyValue(Quotient(c, r), x) == tx + r * qx;
      calc {
        x * tx;
        (x - r) * tx + r * tx;
        { Distrib(r, tr, (x - r) * qx); }
        (x - r) * tx + r * tr + r * ((x - r) * qx);
        { MulSwap(r, x - r, qx); Distrib(x - r, tx, r * qx); }
        r * tr + (x - r) * (tx + r * qx);
      }
    }
  }

  /** A root y of c other than the root r is a root of c's quotient by (x - r). */
  lemma QuotientKeepsRoot(c: seq<int>, r: int, y: int, p: int)
    requires IsPrime(p) && Eval(c, r, p) == 0 && Eval(c, y, p) == 0 && y % p != r % p
    ensures Eval(Quotient(c, r), y, p) == 0
  {
    SyntheticDivision(c, r, y);
    var d, qy := y - r, PolyValue(Quotient(c, r), y);
    ModAdd(PolyValue(c, r), d * qy, p);
    ModSmall(0, p);
    ModMod(d * qy, p);
    assert (d * qy) % p == 0;
    ModSub(y, r, p);
    if d % p == 0 {
      SameResidue(y, r, p);
    }
    Euclid(p, d, qy);
  }

  /** A root of the quotient by (x - r) is a root of c when r is. */
  lemma QuotientRootLifts(c: seq<int>, r: int, z: int, p: int)
    requires p > 0 && Eval(c, r, p) == 0 && Eval(Quotient(c, r), z, p) == 0
    ensures Eval(c, z, p) == 0
  {
    SyntheticDivision(c, r, z);
    var qz := PolyValue(Quotient(c, r), z);
    ModZeroFactor(qz, z - r, p);
    assert qz * (z - r) == (z - r) * qz;
    ModAdd(PolyValue(c, r), (z - r) * qz, p);
    ModSmall(0, p);
  }

  /** Modulo a prime, a polynomial with at most |xs| coefficients that
      vanishes at the pairwise distinct points xs vanishes everywhere. */
  lemma {:induction false} VanishesEverywhere(c: seq<int>, xs: seq<int>, p: int)
    requires IsPrime(p) && |c| <= |xs| && DistinctMod(xs, p)
    requires forall i :: 0 <= i < |xs| ==> Eval(c, xs[i], p) == 0
    ensures forall z :: Eval(c, z, p) == 0
    decreases |xs|
  {
    if |c| > 0 {
      var n := |xs| - 1;
      var r, rest := xs[n], xs[..n];
      var q := Quotient(c, r);
      assert Eval(c, r, p) == 0;
      forall j | 0 <= j < |rest|
        ensures Eval(q, rest[j], p) == 0
      {
        assert rest[j] == xs[j];
        QuotientKeepsRoot(c, r, rest[j], p);
      }
      VanishesEverywhere(q, rest, p);
      forall z ensures Eval(c, z, p) == 0 {
        QuotientRootLifts(c, r, z, p);
      }
    }
  }

  /** Two residues whose difference is 0 modulo p are equal. */
  lemma SameResidue(a: int, b: int, p: int)
    requires p > 0 && (a % p - b % p) % p == 0
    ensures a % p == b % p
  {
    var d := a % p - b % p;
    assert -p < d < p;
    if d > 0 {
      ModSmall(d, p);
    } else if d < 0 {
      ModAddMultiple(d, 1, p);
      ModSmall(d + p, p);
    }
  }

  /** Modulo a prime, two polynomials with at most |xs| coefficients that
      agree at the pairwise distinct points xs agree everywhere. */
  lemma AgreeEverywhere(a: seq<int>, b: seq<int>, xs: seq<int>, p: int)
    requires IsPrime(p) && |a| <= |xs| && |b| <= |xs| && DistinctMod(xs, p)
    requires forall i :: 0 <= i < |xs| ==> Eval(a, xs[i], p) == Eval(b, xs[i], p)
    ensures forall z :: Eval(a, z, p) == Eval(b, z, p)
  {
    var d := PadAdd(a, Scale(b, -1));
    forall z ensures PolyValue(d, z) == PolyValue(a, z) - PolyValue(b, z) {
      PolyValuePadAdd(a, Scale(b, -1), z);
      PolyValueScale(b, -1, z);
    }
    forall i | 0 <= i < |xs| ensures Eval(d, xs[i], p) == 0 {
      ModSub(PolyValue(a, xs[i]), PolyValue(b, xs[i]), p);
      ModSmall(0, p);
    }
    VanishesEverywhere(d, xs, p);
    forall z ensures Eval(a, z, p) == Eval(b, z, p) {
      ModSub(PolyValue(a, z), PolyValue(b, z), p);
      assert Eval(d, z, p) == 0;
      SameResidue(PolyValue(a, z), PolyValue(b, z), p);
    }
  }
}
