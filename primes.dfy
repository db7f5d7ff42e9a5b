/** Greatest common divisors, Bezout coefficients, Python's modular inverse
    `pow(x, -1, m)`, primes and Euclid's lemma, the binomial theorem and
    Fermat's little theorem. */
module Primes {
  import opened ModArith
  import opened Outcomes

  // ---------------------------------------------------------------------
  // gcd and Bezout

  /** Euclid's algorithm on natural numbers (Python's `math.gcd` on
      non-negative arguments). */
  function Gcd(a: nat, b: nat): nat
    decreases b
  {
    if b == 0 then a else Gcd(b, a % b)
  }

  /** Extended Euclid: the gcd together with Bezout coefficients. */
  function ExtGcd(a: nat, b: nat): (r: (nat, int, int))
    ensures r.0 == Gcd(a, b)
    ensures r.1 * a + r.2 * b == r.0
    decreases b
  {
    if b == 0 then (a, 1, 0)
    else
      var (g, u, v) := ExtGcd(b, a % b);
      assert a == b * (a / b) + a % b;
      assert v * a + (u - (a / b) * v) * b == u * b + v * (a % b);
      (g, v, u - (a / b) * v)
  }

  lemma {:induction false} GcdDivides(a: nat, b: nat)
    ensures Gcd(a, b) == 0 <==> a == 0 && b == 0
    ensures Gcd(a, b) > 0 ==> a % Gcd(a, b) == 0 && b % Gcd(a, b) == 0
    decreases b
  {
    if b > 0 {
      GcdDivides(b, a % b);
      var g := Gcd(b, a % b);
      if g > 0 {
        DividesLinear(g, b, a % b, a / b, 1);
        assert (a / b) * b + 1 * (a % b) == a;
      }
    }
  }

  /** A linear combination of multiples of d is a multiple of d. */
  lemma DividesLinear(d: int, a: int, b: int, u: int, v: int)
    requires d > 0 && a % d == 0 && b % d == 0
    ensures (u * a + v * b) % d == 0
  {
    var ka, kb := a / d, b / d;
    assert a == d * ka && b == d * kb;
    assert u * a + v * b == d * (u * ka + v * kb);
    ModOfMultiple(u * ka + v * kb, d);
  }

  /** Every common divisor divides the gcd. */
  lemma CommonDivisorDividesGcd(a: nat, b: nat, d: int)
    requires d > 0 && a % d == 0 && b % d == 0
    ensures Gcd(a, b) % d == 0
  {
    var (g, u, v) := ExtGcd(a, b);
    DividesLinear(d, a, b, u, v);
  }

  lemma DivisorBounded(d: int, n: int)
    requires d > 0 && n > 0 && n % d == 0
    ensures d <= n
  {
    var k := n / d;
    assert n == d * k;
    if k <= 0 {
      MulMonotone(d, k, 0);
    } else {
      MulMonotone(d, 1, k);
    }
  }

  /** A combination equal to 1 makes the two numbers coprime. */
  lemma BezoutOneCoprime(a: nat, b: nat, u: int, v: int)
    requires u * a + v * b == 1
    ensures Gcd(a, b) == 1
  {
    GcdDivides(a, b);
    var g := Gcd(a, b);
    DividesLinear(g, a, b, u, v);
    DivisorBounded(g, 1);
  }

  // ---------------------------------------------------------------------
  // Modular inverse

  predicate IsInverse(x: int, v: int, m: int)
    requires m > 0
  {
    (x * v) % m == 1 % m
  }

  /** Python's `pow(x, -1, m)`: the inverse of x modulo m in [0, m), or
      None where Python raises ValueError ("base is not invertible"). */
  function ModInverse(x: int, m: int): (r: Option<int>)
    requires m > 0
    ensures r.Some? <==> Gcd(x % m, m) == 1
    ensures r.Some? ==> 0 <= r.value < m && IsInverse(x, r.value, m)
    ensures r.None? ==> forall v :: !IsInverse(x, v, m)
  {
    var (g, u, v) := ExtGcd(x % m, m);
    if g == 1 then
      InverseFromBezout(x, m, u, v);
      Some(u % m)
    else
      NoInverseWithoutCoprime(x, m);
      None
  }

  lemma InverseFromBezout(x: int, m: int, u: int, v: int)
    requires m > 0 && u * (x % m) + v * m == 1
    ensures IsInverse(x, u % m, m)
  {
    var r := x % m;
    calc {
      (x * (u % m)) % m;
    == { ModMulRight(x, u, m); }
      (x * u) % m;
    == { ModMulLeft(x, u, m); }
      (r * u) % m;
    == { assert r * u == 1 + m * (-v); }
      (1 + m * (-v)) % m;
    == { ModAddMultiple(1, -v, m); }
      1 % m;
    }
  }

  lemma NoInverseWithoutCoprime(x: int, m: int)
    requires m > 0 && Gcd(x % m, m) != 1
    ensures forall v :: !IsInverse(x, v, m)
  {
    forall v ensures !IsInverse(x, v, m) {
      if IsInverse(x, v, m) {
        InverseCoprime(x, v, m);
      }
    }
  }

  /** Only a residue coprime to m has an inverse modulo m. */
  lemma InverseCoprime(x: int, v: int, m: int)
    requires m > 0 && IsInverse(x, v, m)
    ensures Gcd(x % m, m) == 1
  {
    var r := x % m;
    if m == 1 {
      assert r == 0 && Gcd(0, 1) == Gcd(1, 0);
    } else {
      ModMulLeft(x, v, m);
      ModSmall(1, m);
      var k := (r * v) / m;
      assert r * v == m * k + (r * v) % m;
      assert (r * v) % m == 1;
      assert v * r + (-k) * m == 1;
      BezoutOneCoprime(r, m, v, -k);
    }
  }

  /** The inverse of x modulo m is unique modulo m. */
  lemma InverseUnique(x: int, v: int, w: int, m: int)
    requires m > 0 && IsInverse(x, v, m) && IsInverse(x, w, m)
    ensures v % m == w % m
  {
    // v = v * (x * w) = (x * v) * w = w  (mod m)
    var xw, xv := x * w, x * v;
    assert xw % m == 1 % m;
    ModMulRight(v, xw, m);
    ModMulRight(v, 1, m);
    assert (v * xw) % m == v % m;
    assert v * xw == xv * w;
    ModMulCongruent(xv, 1, w, m);
  }

  // ---------------------------------------------------------------------
  // Primes

  /** p is a prime number. */
  predicate IsPrime(p: int)
  {
    p > 1 && forall d :: 1 < d < p ==> !Divides(d, p)
  }

  /** The positive divisors of a prime are 1 and itself. */
  lemma PrimeDivisor(p: int, d: int)
    requires IsPrime(p) && d > 0 && p % d == 0
    ensures d == 1 || d == p
  {
    DivisorBounded(d, p);
    if 1 < d < p {
      assert Divides(d, p);
    }
  }

  /** A prime not dividing x is coprime to it. */
  lemma PrimeCoprime(p: int, x: int)
    requires IsPrime(p) && x % p != 0
    ensures Gcd(x % p, p) == 1
  {
    GcdDivides(x % p, p);
    var g := Gcd(x % p, p);
    PrimeDivisor(p, g);
  }

  /** Euclid's lemma: a prime dividing a product divides a factor. */
  lemma Euclid(p: int, a: int, b: int)
    requires IsPrime(p) && (a * b) % p == 0
    ensures a % p == 0 || b % p == 0
  {
    if a % p != 0 {
      PrimeCoprime(p, a);
      var (g, u, v) := ExtGcd(a % p, p);
      assert u * (a % p) + v * p == 1;
      ModMulLeft(a, b, p);
      assert ((a % p) * b) % p == 0;
      assert b == u * ((a % p) * b) + (v * b) * p;
      DividesLinear(p, (a % p) * b, p, u, v * b);
    }
  }

  /** Modulo a prime, a product of non-zero residues is non-zero. */
  lemma PrimeProductNonZero(p: int, a: int, b: int)
    requires IsPrime(p) && a % p != 0 && b % p != 0
    ensures (a * b) % p != 0
  {
    if (a * b) % p == 0 {
      Euclid(p, a, b);
    }
  }

  /** Modulo a prime, exactly the non-zero residues are invertible. */
  lemma PrimeInvertible(p: int, x: int)
    requires IsPrime(p)
    ensures ModInverse(x, p).Some? <==> x % p != 0
  {
    if x % p != 0 {
      PrimeCoprime(p, x);
    } else {
      assert Gcd(0, p) == Gcd(p, 0) == p;
    }
  }

  /** Two distinct primes are coprime. */
  lemma DistinctPrimesCoprime(p: int, q: int)
    requires IsPrime(p) && IsPrime(q) && p != q
    ensures Gcd(p, q) == 1
  {
    GcdDivides(p, q);
    var g := Gcd(p, q);
    PrimeDivisor(p, g);
    PrimeDivisor(q, g);
  }

  /** Coprimality is kept by products. */
  lemma CoprimeProduct(a: nat, b: nat, c: nat)
    requires Gcd(a, c) == 1 && Gcd(b, c) == 1
    ensures Gcd(a * b, c) == 1
  {
    var e1, e2 := ExtGcd(a, c), ExtGcd(b, c);
    BezoutProduct(a, b, c, e1.1, e1.2, e2.1, e2.2);
  }

  lemma FourProduct(a: int, b: int, c: int, d: int)
    ensures (a * b) * (c * d) == (a * c) * (b * d)
  {
    MulSwap(a, b, c * d);
    MulSwap(b, c, d);
    MulSwap(a, c, b * d);
  }

  lemma BezoutProduct(a: nat, b: nat, c: nat, u1: int, v1: int, u2: int, v2: int)
    requires u1 * a + v1 * c == 1 && u2 * b + v2 * c == 1
    ensures Gcd(a * b, c) == 1
  {
    var p, q, w := v1 * c, v2 * c, (v1 * v2) * c;
    assert (u1 * u2) * (a * b) == (u1 * a) * (u2 * b) by {
      FourProduct(u1, u2, a, b);
    }
    assert (1 - p) * (1 - q) == 1 - p - q + p * q by {
      Distrib(1 - p, 1, -q);
    }
    assert p * q == w * c by {
      FourProduct(v1, c, v2, c);
      MulSwap(v1 * v2, c, c);
    }
    assert p + q - w * c == (v1 + v2 - w) * c by {
      Distrib(c, v1 + v2, -w);
    }
    BezoutOneCoprime(a * b, c, u1 * u2, v1 + v2 - w);
  }

  lemma CoprimeSymmetric(a: nat, b: nat)
    requires Gcd(a, b) == 1
    ensures Gcd(b, a) == 1
  {
    var (g, u, v) := ExtGcd(a, b);
    BezoutOneCoprime(b, a, v, u);
  }

  /** Two coprime divisors of x divide x together. */
  lemma CoprimeDivisorsProduct(a: int, b: int, x: int)
    requires a > 0 && b > 0 && Gcd(a, b) == 1 && x % a == 0 && x % b == 0
    ensures x % (a * b) == 0
  {
    var e := ExtGcd(a, b);
    BezoutDivisorsProduct(a, b, x, e.1, e.2);
  }

  lemma BezoutDivisorsProduct(a: int, b: int, x: int, u: int, v: int)
    requires a > 0 && b > 0 && u * a + v * b == 1 && x % a == 0 && x % b == 0
    ensures x % (a * b) == 0
  {
    var k := x / a;
    assert x == a * k;
    // k = u * (a * k) + (v * k) * b, and b divides a * k
    assert k * (u * a + v * b) == k * (u * a) + k * (v * b) by {
      Distrib(k, u * a, v * b);
    }
    assert k * (u * a) == u * x by {
      MulSwap(k, u, a);
    }
    assert k * (v * b) == (v * k) * b by {
      MulSwap(k, v, b);
    }
    assert k == u * x + (v * k) * b;
    DividesLinear(b, x, b, u, v * k);
    var j := k / b;
    assert k == b * j;
    assert a * (b * j) == (a * b) * j by {
      MulSwap(a, b, j);
    }
    ModOfMultiple(j, a * b);
  }

  /** A prime coprime to a number (as a residue) is coprime to it as a whole. */
  lemma PrimeCoprimeWhole(p: nat, x: nat)
    requires IsPrime(p) && x % p != 0
    ensures Gcd(x, p) == 1
  {
    GcdDivides(x, p);
    var g := Gcd(x, p);
    PrimeDivisor(p, g);
    if g == p {
      assert false;
    }
  }

  /** If gcd(x, n) is 1 then no prime factor of n divides x. */
  lemma CoprimeNotDivisible(x: nat, n: nat, p: int)
    requires Gcd(x, n) == 1 && IsPrime(p) && n % p == 0
    ensures x % p != 0
  {
    if x % p == 0 {
      CommonDivisorDividesGcd(x, n, p);
      DivisorBounded(p, 1);
    }
  }

  // ---------------------------------------------------------------------
  // Binomial coefficients and Fermat's little theorem

  function Binom(n: nat, k: nat): nat
  {
    if k == 0 then 1 else if n == 0 then 0 else Binom(n - 1, k - 1) + Binom(n - 1, k)
  }

  lemma {:induction false} BinomAbove(n: nat, k: nat)
    requires k > n
    ensures Binom(n, k) == 0
    decreases n
  {
    if n > 0 {
      BinomAbove(n - 1, k - 1);
      BinomAbove(n - 1, k);
    }
  }

  /** k * C(n, k) == n * C(n - 1, k - 1). */
  lemma {:induction false} BinomAbsorb(n: nat, k: nat)
    requires n >= 1 && k >= 1
    ensures k * Binom(n, k) == n * Binom(n - 1, k - 1)
    decreases n
  {
    if n == 1 {
      if k > 1 {
        BinomAbove(0, k - 1);
        BinomAbove(1, k);
      }
    } else {
      // C(n, k) = C(n-1, k-1) + C(n-1, k)
      var m := n - 1;
      if k == 1 {
        BinomAbsorb(m, 1);
        assert Binom(m, 1) == m * Binom(m - 1, 0) == m;
      } else {
        BinomAbsorb(m, k - 1);
        BinomAbsorb(m, k);
        var a, b := Binom(m, k - 1), Binom(m, k);
        var c, d := Binom(m - 1, k - 2), Binom(m - 1, k - 1);
        assert Binom(n, k) == a + b;
        assert a == c + d;
        assert (k - 1) * a == m * c;
        assert k * b == m * d;
        Distrib(k, a, b);
        Distrib(a, k - 1, 1);
        Distrib(m, c, d);
        Distrib(a, m, 1);
      }
    }
  }

  /** A prime divides every inner binomial coefficient of its row. */
  lemma BinomPrimeRow(p: int, k: nat)
    requires IsPrime(p) && 0 < k < p
    ensures Binom(p, k) % p == 0
  {
    BinomAbsorb(p, k);
    assert (k * Binom(p, k)) % p == 0 by {
      ModOfMultiple(Binom(p - 1, k - 1), p);
    }
    Euclid(p, k, Binom(p, k));
    ModSmall(k, p);
  }

  /** The first m terms of the binomial expansion of (a + 1)^n. */
  function BinomSum(a: int, n: nat, m: nat): int
  {
    if m == 0 then 0 else BinomSum(a, n, m - 1) + Binom(n, m - 1) * Pow(a, m - 1)
  }

  lemma {:induction false} BinomSumStep(a: int, n: nat, m: nat)
    ensures BinomSum(a, n + 1, m + 1) == BinomSum(a, n, m + 1) + a * BinomSum(a, n, m)
    decreases m
  {
    if m > 0 {
      BinomSumStep(a, n, m - 1);
      var t, t' := Pow(a, m), Pow(a, m - 1);
      assert t == a * t';
      var s1, s0 := BinomSum(a, n, m), BinomSum(a, n, m - 1);
      var c1, c0 := Binom(n, m), Binom(n, m - 1);
      assert BinomSum(a, n + 1, m) == s1 + a * s0;
      assert Binom(n + 1, m) == c0 + c1;
      assert BinomSum(a, n + 1, m + 1) == s1 + a * s0 + (c0 + c1) * t;
      assert s1 == s0 + c0 * t';
      assert BinomSum(a, n, m + 1) == s1 + c1 * t;
      Distrib(t, c0, c1);
      Distrib(a, s0, c0 * t');
      MulSwap(c0, a, t');
    }
  }

  /** The binomial theorem for (a + 1)^n. */
  lemma {:induction false} BinomialTheorem(a: int, n: nat)
    ensures Pow(a + 1, n) == BinomSum(a, n, n + 1)
    decreases n
  {
    if n > 0 {
      var m := n - 1;
      BinomialTheorem(a, m);
      BinomSumStep(a, m, n);
      BinomAbove(m, n);
      assert BinomSum(a, m, n + 1) == BinomSum(a, m, n);
      calc {
        Pow(a + 1, n);
        (a + 1) * BinomSum(a, m, n);
        BinomSum(a, m, n) + a * BinomSum(a, m, n);
      }
    }
  }

  /** All inner terms of the expansion of (a + 1)^p vanish modulo p. */
  lemma {:induction false} BinomSumPrimeRow(a: int, p: int, m: nat)
    requires IsPrime(p) && 1 <= m <= p
    ensures BinomSum(a, p, m) % p == 1
    decreases m
  {
    if m == 1 {
      ModSmall(1, p);
    } else {
      BinomSumPrimeRow(a, p, m - 1);
      BinomPrimeRow(p, m - 1);
      var c, t := Binom(p, m - 1), Pow(a, m - 1);
      ModZeroFactor(c, t, p);
      ModAdd(BinomSum(a, p, m - 1), c * t, p);
      ModSmall(1, p);
    }
  }

  /** (a + 1)^p == a^p + 1 modulo a prime p. */
  lemma FreshmansDream(a: int, p: int)
    requires IsPrime(p)
    ensures Pow(a + 1, p) % p == (Pow(a, p) + 1) % p
  {
    BinomialTheorem(a, p);
    BinomSumPrimeRow(a, p, p);
    assert Binom(p, p) == 1 by { BinomAbsorbDiagonal(p); }
    ModAdd(BinomSum(a, p, p), Pow(a, p), p);
    ModAdd(1, Pow(a, p), p);
    ModSmall(1, p);
  }

  lemma {:induction false} BinomAbsorbDiagonal(n: nat)
    ensures Binom(n, n) == 1
    decreases n
  {
    if n > 0 {
      BinomAbsorbDiagonal(n - 1);
      BinomAbove(n - 1, n);
    }
  }

  /** Fermat's little theorem, a^p == a (mod p), for non-negative a. */
  lemma {:induction false} FermatNat(a: nat, p: int)
    requires IsPrime(p)
    ensures Pow(a, p) % p == a % p
    decreases a
  {
    if a == 0 {
      PowZeroBase(p);
    } else {
      FermatNat(a - 1, p);
      FreshmansDream(a - 1, p);
      ModAddCongruent(Pow(a - 1, p), a - 1, 1, p);
    }
  }

  /** Fermat's little theorem, a^p == a (mod p). */
  lemma Fermat(a: int, p: int)
    requires IsPrime(p)
    ensures Pow(a, p) % p == a % p
  {
    FermatNat(a % p, p);
    PowMod(a, p, p);
    ModMod(a, p);
  }

  /** Fermat's little theorem, a^(p-1) == 1 (mod p) for a not divisible by p. */
  lemma FermatLittle(a: int, p: int)
    requires IsPrime(p) && a % p != 0
    ensures Pow(a, p - 1) % p == 1
  {
    Fermat(a, p);
    var t := Pow(a, p - 1);
    assert Pow(a, p) == a * t;
    // p divides a * (a^(p-1) - 1)
    assert a * (t - 1) == a * t - a;
    ModSub(a * t, a, p);
    ModSmall(0, p);
    assert (a * (t - 1)) % p == 0;
    Euclid(p, a, t - 1);
    var k := (t - 1) / p;
    assert t == 1 + p * k;
    ModAddMultiple(1, k, p);
    ModSmall(1, p);
  }

  /** a^e == 1 (mod p) for every multiple e of p - 1. */
  lemma FermatMultiple(a: int, p: int, e: nat)
    requires IsPrime(p) && a % p != 0 && e % (p - 1) == 0
    ensures Pow(a, e) % p == 1
  {
    var k := e / (p - 1);
    assert e == (p - 1) * k;
    PowMul(a, p - 1, k);
    FermatLittle(a, p);
    ModSmall(1, p);
    PowCongruent(Pow(a, p - 1), 1, k, p);
    PowOne(k);
  }

  /** A prime dividing no factor divides no power. */
  lemma {:induction false} PowNotDivisible(a: int, p: int, e: nat)
    requires IsPrime(p) && a % p != 0
    ensures Pow(a, e) % p != 0
    decreases e
  {
    if e == 0 {
      ModSmall(1, p);
    } else {
      PowNotDivisible(a, p, e - 1);
      PrimeProductNonZero(p, a, Pow(a, e - 1));
    }
  }
}
