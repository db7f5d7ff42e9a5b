/** Integer powers and the modular-arithmetic facts every other module
    builds on. Python's `%` with a positive modulus is Euclidean, like
    Dafny's `%` on `int`, so `x % m` below is exactly the source's `x % m`. */
module ModArith {

  /** b to the power e over the integers. */
  function Pow(b: int, e: nat): int
  {
    if e == 0 then 1 else b * Pow(b, e - 1)
  }

  /** Python's three-argument `pow(b, e, m)` for a non-negative exponent. */
  function ModPow(b: int, e: nat, m: int): (r: int)
    requires m > 0
    ensures 0 <= r < m
  {
    Pow(b, e) % m
  }

  /** d divides n (d positive). */
  predicate Divides(d: int, n: int)
    requires d > 0
  {
    n % d == 0
  }

  // ---------------------------------------------------------------------
  // Multiplication and division facts

  lemma Distrib(a: int, b: int, c: int)
    ensures a * (b + c) == a * b + a * c
    ensures (b + c) * a == b * a + c * a
  {
  }

  lemma MulSwap(a: int, b: int, c: int)
    ensures a * (b * c) == b * (a * c)
    ensures a * (b * c) == (a * b) * c
  {
  }

  lemma MulNonNeg(a: int, b: int)
    requires 0 <= a && 0 <= b
    ensures 0 <= a * b
  {
  }

  lemma MulMonotone(a: int, b: int, c: int)
    requires 0 <= a && b <= c
    ensures a * b <= a * c
  {
    MulNonNeg(a, c - b);
    assert a * c - a * b == a * (c - b);
  }

  /** A multiple of m strictly between -m and m is zero. */
  lemma SmallMultipleIsZero(m: int, k: int)
    requires m > 0 && -m < m * k < m
    ensures k == 0
  {
    if k >= 1 {
      MulMonotone(m, 1, k);
    } else if k <= -1 {
      MulMonotone(m, k, -1);
    }
  }

  /** Division with remainder is unique. */
  lemma DivModUnique(x: int, m: int, q: int, r: int)
    requires m > 0 && 0 <= r < m && x == m * q + r
    ensures x / m == q && x % m == r
  {
    var q', r' := x / m, x % m;
    assert m * q' + r' == m * q + r;
    assert m * (q' - q) == r - r';
    SmallMultipleIsZero(m, q' - q);
  }

  lemma ModAddMultiple(x: int, k: int, m: int)
    requires m > 0
    ensures (x + m * k) % m == x % m
  {
    DivModUnique(x + m * k, m, x / m + k, x % m);
  }

  lemma ModOfMultiple(k: int, m: int)
    requires m > 0
    ensures (m * k) % m == 0
  {
    ModAddMultiple(0, k, m);
  }

  /** A multiple of a multiple of m is a multiple of m. */
  lemma ModZeroFactor(a: int, b: int, m: int)
    requires m > 0 && a % m == 0
    ensures (a * b) % m == 0
  {
    var k := a / m;
    assert a == m * k;
    MulSwap(m, k, b);
    ModOfMultiple(k * b, m);
  }

  lemma ModSmall(x: int, m: int)
    requires 0 <= x < m
    ensures x % m == x
  {
    DivModUnique(x, m, 0, x);
  }

  lemma ModMod(x: int, m: int)
    requires m > 0
    ensures (x % m) % m == x % m
  {
    ModSmall(x % m, m);
  }

  lemma ModAddLeft(a: int, b: int, m: int)
    requires m > 0
    ensures (a + b) % m == (a % m + b) % m
  {
    ModAddMultiple(a % m + b, a / m, m);
  }

  lemma ModAdd(a: int, b: int, m: int)
    requires m > 0
    ensures (a + b) % m == (a % m + b % m) % m
  {
    ModAddLeft(a, b, m);
    ModAddLeft(b, a % m, m);
  }

  lemma ModSub(a: int, b: int, m: int)
    requires m > 0
    ensures (a - b) % m == (a % m - b % m) % m
  {
    var qa, qb := a / m, b / m;
    assert a == m * qa + a % m && b == m * qb + b % m;
    assert m * (qa - qb) == m * qa - m * qb by {
      Distrib(m, qa, -qb);
    }
    assert a - b == (a % m - b % m) + m * (qa - qb);
    ModAddMultiple(a % m - b % m, qa - qb, m);
  }

  lemma ModMulLeft(a: int, b: int, m: int)
    requires m > 0
    ensures (a * b) % m == ((a % m) * b) % m
  {
    var q, r := a / m, a % m;
    assert a == m * q + r;
    assert a * b == (m * q) * b + r * b by {
      Distrib(b, m * q, r);
    }
    assert (m * q) * b == m * (q * b) by {
      MulSwap(m, q, b);
    }
    ModAddMultiple(r * b, q * b, m);
  }

  lemma ModMulRight(a: int, b: int, m: int)
    requires m > 0
    ensures (a * b) % m == (a * (b % m)) % m
  {
    ModMulLeft(b, a, m);
    assert b * a == a * b;
    assert (b % m) * a == a * (b % m);
  }

  lemma ModMul(a: int, b: int, m: int)
    requires m > 0
    ensures (a * b) % m == ((a % m) * (b % m)) % m
  {
    var x := a % m;
    ModMulLeft(a, b, m);
    ModMulRight(x, b, m);
  }

  /** Congruence is preserved by multiplying both sides. */
  lemma ModMulCongruent(a: int, b: int, c: int, m: int)
    requires m > 0 && a % m == b % m
    ensures (a * c) % m == (b * c) % m
  {
    ModMulLeft(a, c, m);
    ModMulLeft(b, c, m);
  }

  /** Congruence is preserved by adding to both sides. */
  lemma ModAddCongruent(a: int, b: int, c: int, m: int)
    requires m > 0 && a % m == b % m
    ensures (a + c) % m == (b + c) % m
  {
    ModAddLeft(a, c, m);
    ModAddLeft(b, c, m);
  }

  lemma ModIsZeroDivides(x: int, m: int)
    requires m > 0 && x % m == 0
    ensures x == m * (x / m)
  {
  }

  // ---------------------------------------------------------------------
  // Powers

  lemma {:induction false} PowAdd(b: int, e1: nat, e2: nat)
    ensures Pow(b, e1 + e2) == Pow(b, e1) * Pow(b, e2)
    decreases e1
  {
    if e1 > 0 {
      PowAdd(b, e1 - 1, e2);
      calc {
        Pow(b, e1 + e2);
        b * Pow(b, e1 - 1 + e2);
        b * (Pow(b, e1 - 1) * Pow(b, e2));
        (b * Pow(b, e1 - 1)) * Pow(b, e2);
      }
    }
  }

  lemma {:induction false} PowMul(b: int, e1: nat, e2: nat)
    ensures Pow(b, e1 * e2) == Pow(Pow(b, e1), e2)
    decreases e2
  {
    if e2 > 0 {
      PowMul(b, e1, e2 - 1);
      assert e1 * e2 == e1 + e1 * (e2 - 1);
      PowAdd(b, e1, e1 * (e2 - 1));
    }
  }

  lemma {:induction false} PowProduct(a: int, b: int, e: nat)
    ensures Pow(a * b, e) == Pow(a, e) * Pow(b, e)
    decreases e
  {
    if e > 0 {
      PowProduct(a, b, e - 1);
      var x, y := Pow(a, e - 1), Pow(b, e - 1);
      assert Pow(a * b, e) == (a * b) * (x * y);
      assert (a * b) * (x * y) == (a * x) * (b * y);
    }
  }

  lemma {:induction false} PowOne(e: nat)
    ensures Pow(1, e) == 1
    decreases e
  {
    if e > 0 {
      PowOne(e - 1);
    }
  }

  lemma PowZeroBase(e: nat)
    requires e > 0
    ensures Pow(0, e) == 0
  {
  }

  lemma {:induction false} PowNonNeg(b: int, e: nat)
    requires b >= 0
    ensures Pow(b, e) >= 0
    decreases e
  {
    if e > 0 {
      PowNonNeg(b, e - 1);
      MulNonNeg(b, Pow(b, e - 1));
    }
  }

  /** Reducing the base modulo m does not change a power modulo m. */
  lemma {:induction false} PowMod(b: int, e: nat, m: int)
    requires m > 0
    ensures Pow(b % m, e) % m == Pow(b, e) % m
    decreases e
  {
    if e > 0 {
      PowMod(b, e - 1, m);
      calc {
        Pow(b % m, e) % m;
        ((b % m) * Pow(b % m, e - 1)) % m;
        { ModMul(b % m, Pow(b % m, e - 1), m); ModMod(b, m); }
        ((b % m) * (Pow(b, e - 1) % m)) % m;
        { ModMul(b, Pow(b, e - 1), m); }
        (b * Pow(b, e - 1)) % m;
      }
    }
  }

  /** Congruent bases have congruent powers. */
  lemma PowCongruent(a: int, b: int, e: nat, m: int)
    requires m > 0 && a % m == b % m
    ensures Pow(a, e) % m == Pow(b, e) % m
  {
    PowMod(a, e, m);
    PowMod(b, e, m);
  }

  /** pow(pow(b, e1, m), e2, m) == pow(b, e1 * e2, m). */
  lemma ModPowPow(b: int, e1: nat, e2: nat, m: int)
    requires m > 0
    ensures ModPow(ModPow(b, e1, m), e2, m) == ModPow(b, e1 * e2, m)
  {
    PowMod(Pow(b, e1), e2, m);
    PowMul(b, e1, e2);
  }

  /** pow(b, e1, m) * pow(b, e2, m) reduced is pow(b, e1 + e2, m). */
  lemma ModPowAdd(b: int, e1: nat, e2: nat, m: int)
    requires m > 0
    ensures (ModPow(b, e1, m) * ModPow(b, e2, m)) % m == ModPow(b, e1 + e2, m)
  {
    ModMul(Pow(b, e1), Pow(b, e2), m);
    PowAdd(b, e1, e2);
  }

  /** If b^k is 1 modulo m then exponents only matter modulo k. */
  lemma PowExponentMod(b: int, e: nat, k: nat, m: int)
    requires m > 0 && k > 0 && Pow(b, k) % m == 1 % m
    ensures Pow(b, e) % m == Pow(b, e % k) % m
  {
    var q := e / k;
    assert e == k * q + e % k;
    PowAdd(b, k * q, e % k);
    PowMul(b, k, q);
    PowCongruent(Pow(b, k), 1, q, m);
    PowOne(q);
    ModMulCongruent(Pow(Pow(b, k), q), 1, Pow(b, e % k), m);
  }
}
