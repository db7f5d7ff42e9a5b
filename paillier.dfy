/** The Paillier cryptosystem: n = p q, g = n + 1, lambda = lcm(p - 1,
    q - 1), encryption g^m r^n mod n^2, decryption L(c^lambda mod n^2) mu
    mod n with L(x) = (x - 1) // n, and the homomorphic operations on
    ciphertexts. */
module Paillier {
  import opened ModArith
  import opened Primes
  import opened Outcomes

  function Abs(x: int): nat
  {
    if x < 0 then -x else x
  }

  // ---------------------------------------------------------------------
  // lcm

  /** `lcm`: |a b| // gcd(a, b); a multiple of both a and b. */
  function Lcm(a: int, b: int): (r: nat)
    requires a != 0 || b != 0
    ensures a != 0 ==> r % Abs(a) == 0
    ensures b != 0 ==> r % Abs(b) == 0
    ensures r * Gcd(Abs(a), Abs(b)) == Abs(a * b)
  {
    LcmDivisible(a, b);
    Abs(a * b) / Gcd(Abs(a), Abs(b))
  }

  lemma AbsProduct(a: int, b: int)
    ensures Abs(a * b) == Abs(a) * Abs(b)
  {
    if a < 0 && b >= 0 {
      assert a * b == -((-a) * b);
    } else if a >= 0 && b < 0 {
      assert a * b == -(a * (-b));
    } else if a < 0 && b < 0 {
      assert a * b == (-a) * (-b);
    }
  }

  lemma LcmDivisible(a: int, b: int)
    requires a != 0 || b != 0
    ensures Gcd(Abs(a), Abs(b)) > 0
    ensures var r := Abs(a * b) / Gcd(Abs(a), Abs(b));
            r * Gcd(Abs(a), Abs(b)) == Abs(a * b) && (a != 0 ==> r % Abs(a) == 0) && (b != 0 ==> r % Abs(b) == 0)
  {
    var x, y := Abs(a), Abs(b);
    GcdDivides(x, y);
    var g := Gcd(x, y);
    ModIsZeroDivides(x, g);
    ModIsZeroDivides(y, g);
    var kx, ky := x / g, y / g;
    AbsProduct(a, b);
    assert x * y == g * (x * ky) by {
      MulSwap(x, g, ky);
    }
    assert x * ky == kx * y by {
      MulSwap(g, kx, ky);
      MulSwap(kx, g, ky);
    }
    DivModUnique(x * y, g, x * ky, 0);
    var r := x * ky;
    assert r * g == x * y;
    if a != 0 {
      ModOfMultiple(ky, x);
    }
    if b != 0 {
      assert r == y * kx;
      ModOfMultiple(kx, y);
    }
  }

  /** The lcm divides every common multiple of a and b. */
  lemma LcmLeast(a: int, b: int, m: int)
    requires a != 0 && b != 0 && m % Abs(a) == 0 && m % Abs(b) == 0
    ensures m % Lcm(a, b) == 0
  {
    var x, y := Abs(a), Abs(b);
    var (g, u, v) := ExtGcd(x, y);
    var r := Lcm(a, b);
    var i, j := m / x, m / y;
    ModIsZeroDivides(m, x);
    ModIsZeroDivides(m, y);
    AbsProduct(a, b);
    // m g = u x m + v y m = x y (u j + v i) = r g (u j + v i)
    assert m * g == u * (x * m) + v * (y * m) by {
      Distrib(m, u * x, v * y);
      MulSwap(u, x, m);
      MulSwap(v, y, m);
    }
    assert x * m == (x * y) * j by {
      MulSwap(x, y, j);
    }
    assert y * m == (x * y) * i by {
      MulSwap(y, x, i);
    }
    var k := u * j + v * i;
    assert u * ((x * y) * j) + v * ((x * y) * i) == (x * y) * k by {
      MulSwap(u, x * y, j);
      MulSwap(v, x * y, i);
      Distrib(x * y, u * j, v * i);
    }
    assert m * g == (r * k) * g by {
      MulSwap(r, g, k);
      MulSwap(g, r, k);
    }
    assert g > 0 by {
      GcdDivides(x, y);
    }
    CancelFactor(m, r * k, g);
    ModOfMultiple(k, r);
  }

  lemma CancelFactor(a: int, b: int, g: int)
    requires g != 0 && a * g == b * g
    ensures a == b
  {
    assert (a - b) * g == 0 by {
      Distrib(g, a, -b);
    }
  }

  // ---------------------------------------------------------------------
  // Keys

  datatype PublicKey = PublicKey(n: int, g: int)

  datatype PrivateKey = PrivateKey(lambda: nat, mu: int, n: int)

  /** L(x) = (x - 1) // n; Python's floor division agrees with Dafny's
      Euclidean division for a positive n. */
  function LFunction(x: int, n: int): int
    requires n > 0
  {
    (x - 1) / n
  }

  /** The keys `generate_keypair` derives from its two primes; mu is
      `pow(L(g^lambda mod n^2), -1, n)`, which raises when that value is
      not invertible modulo n. */
  function KeypairFrom(p: int, q: int): (r: Outcome<(PublicKey, PrivateKey)>)
    requires p > 1 && q > 1
    ensures var n := p * q;
            r.Returned? <==> Gcd(LFunction(ModPow(n + 1, Lcm(p - 1, q - 1), n * n), n) % n, n) == 1
    ensures r.Returned? ==>
              r.value.0 == PublicKey(p * q, p * q + 1) &&
              r.value.1.lambda == Lcm(p - 1, q - 1) && r.value.1.n == p * q &&
              IsInverse(LFunction(ModPow(p * q + 1, Lcm(p - 1, q - 1), (p * q) * (p * q)), p * q), r.value.1.mu, p * q)
  {
    MulMonotone(p, 1, q);
    var n := p * q;
    var nSquared := n * n;
    MulMonotone(n, 1, n);
    var lambda := Lcm(p - 1, q - 1);
    var g := n + 1;
    var x := ModPow(g, lambda, nSquared);
    var l := LFunction(x, n);
    match ModInverse(l, n)
    case None => Raised(NotInvertible)
    case Some(mu) => Returned((PublicKey(n, g), PrivateKey(lambda, mu, n)))
  }

  /** The first of draws[k..] that differs from p. */
  function FirstOther(draws: seq<int>, p: int, k: nat): (r: int)
    requires exists i :: k <= i < |draws| && draws[i] != p
    ensures r != p && r in draws
    decreases |draws| - k
  {
    if draws[k] != p then draws[k] else FirstOther(draws, p, k + 1)
  }

  /** `generate_keypair`: p is the first prime drawn, q the first later
      draw different from p. */
  method GenerateKeypair(p: int, qDraws: seq<int>) returns (r: Outcome<(PublicKey, PrivateKey)>)
    requires p > 1 && forall i :: 0 <= i < |qDraws| ==> qDraws[i] > 1
    requires exists i :: 0 <= i < |qDraws| && qDraws[i] != p
    ensures r == KeypairFrom(p, FirstOther(qDraws, p, 0))
  {
    var k := 0;
    while qDraws[k] == p
      invariant 0 <= k < |qDraws| && exists i :: k <= i < |qDraws| && qDraws[i] != p
      invariant FirstOther(qDraws, p, k) == FirstOther(qDraws, p, 0)
      decreases |qDraws| - k
    {
      k := k + 1;
    }
    var q := qDraws[k];
    r := KeypairFrom(p, q);
  }

  // ---------------------------------------------------------------------
  // Encryption, decryption, homomorphic operations

  /** c = g^m r^n mod n^2 for the nonce r. */
  function EncryptWith(message: nat, pub: PublicKey, r: int): (c: int)
    requires pub.n > 0
    ensures 0 <= c < pub.n * pub.n
    ensures c == (Pow(pub.g, message) * Pow(r, pub.n)) % (pub.n * pub.n)
  {
    var nSquared := pub.n * pub.n;
    MulMonotone(pub.n, 1, pub.n);
    ModMul(Pow(pub.g, message), Pow(r, pub.n), nSquared);
    (ModPow(pub.g, message, nSquared) * ModPow(r, pub.n, nSquared)) % nSquared
  }

  /** The first of draws[k..] coprime to n. */
  function FirstCoprime(draws: seq<nat>, n: nat, k: nat): (r: nat)
    requires exists i :: k <= i < |draws| && Gcd(draws[i], n) == 1
    ensures Gcd(r, n) == 1 && r in draws
    decreases |draws| - k
  {
    if Gcd(draws[k], n) == 1 then draws[k] else FirstCoprime(draws, n, k + 1)
  }

  /** `encrypt`: r is the first draw of `random.randrange(1, n)` coprime to
      n. */
  method Encrypt(message: nat, pub: PublicKey, rDraws: seq<nat>) returns (c: int)
    requires pub.n > 0
    requires forall i :: 0 <= i < |rDraws| ==> 1 <= rDraws[i] < pub.n
    requires exists i :: 0 <= i < |rDraws| && Gcd(rDraws[i], pub.n) == 1
    ensures c == EncryptWith(message, pub, FirstCoprime(rDraws, pub.n, 0))
  {
    var k := 0;
    while Gcd(rDraws[k], pub.n) != 1
      invariant 0 <= k < |rDraws| && exists i :: k <= i < |rDraws| && Gcd(rDraws[i], pub.n) == 1
      invariant FirstCoprime(rDraws, pub.n, k) == FirstCoprime(rDraws, pub.n, 0)
      decreases |rDraws| - k
    {
      k := k + 1;
    }
    var r := rDraws[k];
    c := EncryptWith(message, pub, r);
  }

  /** `decrypt`: L(c^lambda mod n^2) mu mod n. */
  function Decrypt(ciphertext: int, priv: PrivateKey): (m: int)
    requires priv.n > 0
    ensures 0 <= m < priv.n
  {
    var nSquared := priv.n * priv.n;
    MulMonotone(priv.n, 1, priv.n);
    var x := ModPow(ciphertext, priv.lambda, nSquared);
    (LFunction(x, priv.n) * priv.mu) % priv.n
  }

  /** `homomorphic_add`: c1 c2 mod n^2. */
  function HomomorphicAdd(c1: int, c2: int, pub: PublicKey): (r: int)
    requires pub.n > 0
    ensures 0 <= r < pub.n * pub.n
  {
    MulMonotone(pub.n, 1, pub.n);
    (c1 * c2) % (pub.n * pub.n)
  }

  /** `homomorphic_add_constant`: c g^k mod n^2. */
  function HomomorphicAddConstant(ciphertext: int, constant: nat, pub: PublicKey): (r: int)
    requires pub.n > 0
    ensures 0 <= r < pub.n * pub.n
    ensures r == (ciphertext * Pow(pub.g, constant)) % (pub.n * pub.n)
  {
    MulMonotone(pub.n, 1, pub.n);
    ModMulRight(ciphertext, Pow(pub.g, constant), pub.n * pub.n);
    (ciphertext * ModPow(pub.g, constant, pub.n * pub.n)) % (pub.n * pub.n)
  }

  /** `homomorphic_multiply_constant`: c^k mod n^2. */
  function HomomorphicMultiplyConstant(ciphertext: int, constant: nat, pub: PublicKey): (r: int)
    requires pub.n > 0
    ensures 0 <= r < pub.n * pub.n
    ensures r == Pow(ciphertext, constant) % (pub.n * pub.n)
  {
    MulMonotone(pub.n, 1, pub.n);
    ModPow(ciphertext, constant, pub.n * pub.n)
  }

  // ---------------------------------------------------------------------
  // Number theory behind decryption

  /** n is the product of the distinct primes p and q, and nn is n^2. */
  predicate Modulus(p: int, q: int, n: int, nn: int)
  {
    IsPrime(p) && IsPrime(q) && p != q && n == p * q && nn == n * n
  }

  lemma ModulusBounds(p: int, q: int, n: int, nn: int)
    requires Modulus(p, q, n, nn)
    ensures n > 1 && nn > 1
  {
    MulMonotone(p, 2, q);
    MulMonotone(n, 2, n);
  }

  /** (1 + a n)^e == 1 + e a n modulo n^2. */
  lemma {:induction false} OnePlusPow(a: int, n: int, nn: int, e: nat)
    requires n > 0 && nn == n * n
    ensures Pow(1 + a * n, e) % nn == (1 + e * a * n) % nn
    decreases e
  {
    if e > 0 {
      assert nn > 0 by {
        MulMonotone(n, 1, n);
      }
      OnePlusPow(a, n, nn, e - 1);
      OnePlusProduct(a, n, nn, e - 1);
      MulCongruentStep(1 + a * n, Pow(1 + a * n, e - 1), 1 + (e - 1) * a * n, 1 + e * a * n, (e - 1) * a * a, nn);
    }
  }

  /** b x is r modulo m when x is t modulo m and b t is r plus a multiple
      of m. */
  lemma MulCongruentStep(b: int, x: int, t: int, r: int, k: int, m: int)
    requires m > 0 && x % m == t % m && b * t == r + m * k
    ensures (b * x) % m == r % m
  {
    ModMulRight(b, x, m);
    ModMulRight(b, t, m);
    ModAddMultiple(r, k, m);
  }

  /** (1 + a n)(1 + e a n) = 1 + (e + 1) a n + (e a^2) n^2. */
  lemma OnePlusProduct(a: int, n: int, nn: int, e: int)
    requires nn == n * n
    ensures (1 + a * n) * (1 + e * a * n) == (1 + (e + 1) * a * n) + nn * (e * a * a)
  {
    var x, y := a * n, e * a * n;
    assert (1 + x) * (1 + y) == 1 + x + y + x * y by {
      Distrib(1 + x, 1, y);
    }
    assert x * y == nn * (e * a * a) by {
      FourProduct(a, n, e * a, n);
      MulSwap(a, e * a, nn);
      MulSwap(e, a, a);
    }
    assert x + y == (e + 1) * a * n by {
      Distrib(a * n, e, 1);
      MulSwap(e, a, n);
      MulSwap(e + 1, a, n);
    }
  }

  /** L of the residue of 1 + k n modulo n^2 is k mod n. */
  lemma LOfOnePlus(k: int, n: int, nn: int)
    requires n > 1 && nn == n * n
    ensures LFunction((1 + k * n) % nn, n) == k % n
  {
    var r, j := k % n, k / n;
    assert k == n * j + r;
    assert 1 + k * n == (1 + r * n) + nn * j by {
      Distrib(n, n * j, r);
      MulSwap(n, n, j);
    }
    assert 0 <= r * n <= (n - 1) * n by {
      MulNonNeg(r, n);
      MulMonotone(n, r, n - 1);
    }
    assert (n - 1) * n == nn - n;
    DivModUnique(1 + k * n, nn, j, 1 + r * n);
    DivModUnique(r * n, n, r, 0);
  }

  /** A unit modulo both primes raised to a common multiple of p - 1 and
      q - 1 is 1 modulo n. */
  lemma UnitPowLambda(s: int, p: int, q: int, n: int, lambda: nat)
    requires IsPrime(p) && IsPrime(q) && p != q && n == p * q && n > 1
    requires s % p != 0 && s % q != 0 && lambda % (p - 1) == 0 && lambda % (q - 1) == 0
    ensures Pow(s, lambda) % n == 1
  {
    var t := Pow(s, lambda);
    FermatMultiple(s, p, lambda);
    FermatMultiple(s, q, lambda);
    OneLess(t, p);
    OneLess(t, q);
    assert (t - 1) % n == 0 by {
      DistinctPrimesCoprime(p, q);
      CoprimeDivisorsProduct(p, q, t - 1);
    }
    ModAddLeft(t - 1, 1, n);
    ModSmall(1, n);
  }

  lemma OneLess(t: int, m: int)
    requires m > 1 && t % m == 1
    ensures (t - 1) % m == 0
  {
    var k := t / m;
    assert t - 1 == m * k;
    ModOfMultiple(k, m);
  }

  /** The n-th power of such a unit raised to lambda is 1 modulo n^2. */
  lemma NthPowerVanishes(s: int, p: int, q: int, n: int, nn: int, lambda: nat)
    requires Modulus(p, q, n, nn)
    requires s % p != 0 && s % q != 0 && lambda % (p - 1) == 0 && lambda % (q - 1) == 0
    ensures Pow(Pow(s, n), lambda) % nn == 1
  {
    ModulusBounds(p, q, n, nn);
    UnitPowLambda(s, p, q, n, lambda);
    var t := Pow(s, lambda);
    var k := t / n;
    assert t == 1 + k * n;
    PowMul(s, n, lambda);
    PowMul(s, lambda, n);
    assert n * lambda == lambda * n;
    OnePlusPow(k, n, nn, n);
    assert n * k * n == nn * k by {
      MulSwap(n, k, n);
    }
    ModAddMultiple(1, k, nn);
    ModSmall(1, nn);
  }

  /** A ciphertext of m under a unit nonce s, raised to lambda, is
      1 + m lambda n modulo n^2. */
  lemma PowLambda(c: int, m: nat, s: int, p: int, q: int, n: int, nn: int, lambda: nat)
    requires Modulus(p, q, n, nn)
    requires s % p != 0 && s % q != 0 && lambda % (p - 1) == 0 && lambda % (q - 1) == 0
    requires c % nn == (Pow(n + 1, m) * Pow(s, n)) % nn
    ensures Pow(c, lambda) % nn == (1 + (m * lambda) * n) % nn
  {
    ModulusBounds(p, q, n, nn);
    var a, b := Pow(n + 1, m), Pow(s, n);
    PowCongruent(c, a * b, lambda, nn);
    PowProduct(a, b, lambda);
    PowMul(n + 1, m, lambda);
    var ml := m * lambda;
    OnePlusPow(1, n, nn, ml);
    assert 1 + 1 * n == n + 1 && ml * 1 * n == ml * n;
    NthPowerVanishes(s, p, q, n, nn, lambda);
    var x, y := Pow(a, lambda), Pow(b, lambda);
    ModMul(x, y, nn);
    assert (x * y) % nn == ((x % nn) * 1) % nn;
    ModMod(1 + ml * n, nn);
  }

  /** L(g^lambda mod n^2) is lambda mod n. */
  lemma KeyL(p: int, q: int, n: int, nn: int)
    requires Modulus(p, q, n, nn)
    ensures LFunction(ModPow(n + 1, Lcm(p - 1, q - 1), nn), n) == Lcm(p - 1, q - 1) % n
  {
    ModulusBounds(p, q, n, nn);
    var lambda := Lcm(p - 1, q - 1);
    ModSmall(1, p);
    ModSmall(1, q);
    assert Pow(n + 1, 1) == n + 1;
    PowOne(n);
    PowLambda(n + 1, 1, 1, p, q, n, nn, lambda);
    assert (1 * lambda) * n == lambda * n;
    LOfOnePlus(lambda, n, nn);
  }

  // ---------------------------------------------------------------------
  // Properties

  /** Keys derived from two distinct primes: mu inverts lambda modulo n. */
  lemma KeypairInverse(p: int, q: int)
    requires IsPrime(p) && IsPrime(q) && p != q && KeypairFrom(p, q).Returned?
    ensures var priv := KeypairFrom(p, q).value.1;
            IsInverse(priv.lambda, priv.mu, p * q)
  {
    var n := p * q;
    var nn := n * n;
    ModulusBounds(p, q, n, nn);
    var priv := KeypairFrom(p, q).value.1;
    KeyL(p, q, n, nn);
    ModMulLeft(priv.lambda, priv.mu, n);
  }

  /** Two distinct primes of which neither divides the other minus one give
      a key pair: lambda is then coprime to n. This holds for two odd
      primes of the same bit length, as `generate_prime` draws them, since
      each is then below twice the other. */
  lemma KeypairSucceeds(p: int, q: int)
    requires IsPrime(p) && IsPrime(q) && p != q
    requires (q - 1) % p != 0 && (p - 1) % q != 0
    ensures KeypairFrom(p, q).Returned?
  {
    var n := p * q;
    ModulusBounds(p, q, n, n * n);
    LambdaUnit(p, q, n, n * n);
  }

  /** L(g^lambda mod n^2) mod n is coprime to n. */
  lemma LambdaUnit(p: int, q: int, n: int, nn: int)
    requires Modulus(p, q, n, nn) && (q - 1) % p != 0 && (p - 1) % q != 0
    ensures Gcd(LFunction(ModPow(n + 1, Lcm(p - 1, q - 1), nn), n) % n, n) == 1
  {
    ModulusBounds(p, q, n, nn);
    var lambda := Lcm(p - 1, q - 1);
    assert lambda % p != 0 by {
      ModSmall(p - 1, p);
      LambdaNotDivisible(p, p - 1, q - 1);
    }
    assert lambda % q != 0 by {
      ModSmall(q - 1, q);
      LambdaNotDivisible(q, p - 1, q - 1);
    }
    var l := lambda % n;
    assert l % p != 0 && l % q != 0 by {
      ModModFactor(lambda, p, q);
      assert q * p == n;
      ModModFactor(lambda, q, p);
    }
    assert Gcd(l, n) == 1 by {
      UnitModProduct(l, p, q);
    }
    assert LFunction(ModPow(n + 1, lambda, nn), n) % n == l by {
      KeyL(p, q, n, nn);
      ModMod(lambda, n);
    }
  }

  /** Reducing modulo p q and then modulo p is reducing modulo p. */
  lemma ModModFactor(x: int, p: int, q: int)
    requires p > 0 && q > 0
    ensures (x % (p * q)) % p == x % p
  {
    var n := p * q;
    MulMonotone(p, 1, q);
    var j := x / n;
    assert x == x % n + n * j;
    assert n * j == p * (q * j) by {
      MulSwap(p, q, j);
    }
    ModAddMultiple(x % n, q * j, p);
  }

  /** A prime dividing neither of two positive numbers does not divide
      their lcm, which divides their product. */
  lemma LambdaNotDivisible(p: int, a: int, b: int)
    requires IsPrime(p) && a > 0 && b > 0 && a % p != 0 && b % p != 0
    ensures Lcm(a, b) % p != 0
  {
    var lambda := Lcm(a, b);
    var g := Gcd(a, b);
    AbsProduct(a, b);
    MulNonNeg(a, b);
    assert lambda * g == a * b;
    if lambda % p == 0 {
      ModZeroFactor(lambda, g, p);
      Euclid(p, a, b);
    }
  }

  /** A number divisible by neither of two distinct primes is coprime to
      their product. */
  lemma UnitModProduct(x: nat, p: int, q: int)
    requires IsPrime(p) && IsPrime(q) && p != q && x % p != 0 && x % q != 0
    ensures Gcd(x, p * q) == 1
  {
    PrimeCoprimeWhole(p, x);
    PrimeCoprimeWhole(q, x);
    CoprimeSymmetric(x, p);
    CoprimeSymmetric(x, q);
    CoprimeProduct(p, q, x);
    CoprimeSymmetric(p * q, x);
  }

  /** Decryption with keys from two distinct primes takes any ciphertext
      of the form g^m s^n, s a unit modulo n, to m mod n. */
  lemma DecryptsForm(c: int, m: nat, s: int, p: int, q: int, n: int, nn: int)
    requires Modulus(p, q, n, nn) && KeypairFrom(p, q).Returned?
    requires s % p != 0 && s % q != 0
    requires c % nn == (Pow(n + 1, m) * Pow(s, n)) % nn
    ensures Decrypt(c, KeypairFrom(p, q).value.1) == m % n
  {
    ModulusBounds(p, q, n, nn);
    var priv := KeypairFrom(p, q).value.1;
    var lambda, mu := priv.lambda, priv.mu;
    PowLambda(c, m, s, p, q, n, nn, lambda);
    LOfOnePlus(m * lambda, n, nn);
    KeypairInverse(p, q);
    UnitScale(m, lambda, mu, n);
  }

  /** ((m lambda mod n) mu) mod n is m mod n when mu inverts lambda. */
  lemma UnitScale(m: int, lambda: int, mu: int, n: int)
    requires n > 1 && IsInverse(lambda, mu, n)
    ensures (((m * lambda) % n) * mu) % n == m % n
  {
    ModMulLeft(m * lambda, mu, n);
    assert (m * lambda) * mu == m * (lambda * mu);
    ModMulRight(m, lambda * mu, n);
    ModSmall(1, n);
    ModMulRight(m, 1, n);
  }

  /** A nonce coprime to n is a unit modulo both primes. */
  lemma CoprimeNonce(r: nat, p: int, q: int)
    requires IsPrime(p) && IsPrime(q) && Gcd(r, p * q) == 1
    ensures r % p != 0 && r % q != 0
  {
    MulMonotone(p, 1, q);
    ModOfMultiple(q, p);
    assert p * q == q * p;
    ModOfMultiple(p, q);
    CoprimeNotDivisible(r, p * q, p);
    CoprimeNotDivisible(r, p * q, q);
  }

  /** Decryption inverts encryption for every message below n and every
      nonce coprime to n. */
  lemma DecryptEncrypt(p: int, q: int, m: nat, r: nat)
    requires IsPrime(p) && IsPrime(q) && p != q && KeypairFrom(p, q).Returned?
    requires m < p * q && Gcd(r, p * q) == 1
    ensures var keys := KeypairFrom(p, q).value;
            Decrypt(EncryptWith(m, keys.0, r), keys.1) == m
  {
    var n := p * q;
    var nn := n * n;
    ModulusBounds(p, q, n, nn);
    CoprimeNonce(r, p, q);
    var c := EncryptWith(m, KeypairFrom(p, q).value.0, r);
    ModMod(Pow(n + 1, m) * Pow(r, n), nn);
    DecryptsForm(c, m, r, p, q, n, nn);
    ModSmall(m, n);
  }

  /** The product of two reduced products, reduced, regroups its factors. */
  lemma ProductOfForms(a1: int, b1: int, a2: int, b2: int, nn: int)
    requires nn > 0
    ensures (((a1 * b1) % nn) * ((a2 * b2) % nn)) % nn == ((a1 * a2) * (b1 * b2)) % nn
  {
    ModMul(a1 * b1, a2 * b2, nn);
    FourProduct(a1, b1, a2, b2);
  }

  /** `homomorphic_add` of two ciphertexts decrypts to the sum of the
      messages modulo n. */
  lemma AddHomomorphic(p: int, q: int, m1: nat, m2: nat, r1: nat, r2: nat)
    requires IsPrime(p) && IsPrime(q) && p != q && KeypairFrom(p, q).Returned?
    requires Gcd(r1, p * q) == 1 && Gcd(r2, p * q) == 1
    ensures var keys := KeypairFrom(p, q).value;
            Decrypt(HomomorphicAdd(EncryptWith(m1, keys.0, r1), EncryptWith(m2, keys.0, r2), keys.0), keys.1) ==
            (m1 + m2) % (p * q)
  {
    var n := p * q;
    var nn := n * n;
    ModulusBounds(p, q, n, nn);
    var pub := KeypairFrom(p, q).value.0;
    CoprimeNonce(r1, p, q);
    CoprimeNonce(r2, p, q);
    PrimeProductNonZero(p, r1, r2);
    PrimeProductNonZero(q, r1, r2);
    var a1, b1, a2, b2 := Pow(n + 1, m1), Pow(r1, n), Pow(n + 1, m2), Pow(r2, n);
    var c := HomomorphicAdd(EncryptWith(m1, pub, r1), EncryptWith(m2, pub, r2), pub);
    ProductOfForms(a1, b1, a2, b2, nn);
    PowAdd(n + 1, m1, m2);
    PowProduct(r1, r2, n);
    ModMod((a1 * a2) * (b1 * b2), nn);
    DecryptsForm(c, m1 + m2, r1 * r2, p, q, n, nn);
  }

  /** `homomorphic_add_constant` decrypts to the message plus the constant
      modulo n. */
  lemma AddConstantHomomorphic(p: int, q: int, m: nat, k: nat, r: nat)
    requires IsPrime(p) && IsPrime(q) && p != q && KeypairFrom(p, q).Returned?
    requires Gcd(r, p * q) == 1
    ensures var keys := KeypairFrom(p, q).value;
            Decrypt(HomomorphicAddConstant(EncryptWith(m, keys.0, r), k, keys.0), keys.1) == (m + k) % (p * q)
  {
    var n := p * q;
    var nn := n * n;
    ModulusBounds(p, q, n, nn);
    var pub := KeypairFrom(p, q).value.0;
    CoprimeNonce(r, p, q);
    var a, b, gk := Pow(n + 1, m), Pow(r, n), Pow(n + 1, k);
    var c := HomomorphicAddConstant(EncryptWith(m, pub, r), k, pub);
    ModMulLeft(a * b, gk, nn);
    assert (a * b) * gk == (a * gk) * b by {
      MulSwap(a, b, gk);
      MulSwap(b, a, gk);
    }
    PowAdd(n + 1, m, k);
    ModMod((a * gk) * b, nn);
    DecryptsForm(c, m + k, r, p, q, n, nn);
  }

  /** `homomorphic_multiply_constant` decrypts to the message times the
      constant modulo n. */
  lemma MultiplyConstantHomomorphic(p: int, q: int, m: nat, k: nat, r: nat)
    requires IsPrime(p) && IsPrime(q) && p != q && KeypairFrom(p, q).Returned?
    requires Gcd(r, p * q) == 1
    ensures var keys := KeypairFrom(p, q).value;
            Decrypt(HomomorphicMultiplyConstant(EncryptWith(m, keys.0, r), k, keys.0), keys.1) == (m * k) % (p * q)
  {
    var n := p * q;
    var nn := n * n;
    ModulusBounds(p, q, n, nn);
    var pub := KeypairFrom(p, q).value.0;
    CoprimeNonce(r, p, q);
    PowNotDivisible(r, p, k);
    PowNotDivisible(r, q, k);
    var a, b := Pow(n + 1, m), Pow(r, n);
    var c := HomomorphicMultiplyConstant(EncryptWith(m, pub, r), k, pub);
    PowMod(a * b, k, nn);
    PowProduct(a, b, k);
    PowMul(n + 1, m, k);
    PowMul(r, n, k);
    PowMul(r, k, n);
    assert n * k == k * n;
    ModMod(Pow(n + 1, m * k) * Pow(Pow(r, k), n), nn);
    DecryptsForm(c, m * k, Pow(r, k), p, q, n, nn);
  }

  /** Two distinct odd primes of the same bit length, as `generate_prime`
      draws them (top and bottom bit set), each below twice the other: then
      neither divides the other minus one, so KeypairSucceeds applies. */
  lemma SameLengthPrimes(p: int, q: int)
    requires IsPrime(p) && IsPrime(q) && p != q && p % 2 == 1 && q % 2 == 1
    requires p < 2 * q && q < 2 * p
    ensures (q - 1) % p != 0 && (p - 1) % q != 0
    ensures KeypairFrom(p, q).Returned?
  {
    NotOneMore(p, q);
    NotOneMore(q, p);
    KeypairSucceeds(p, q);
  }

  lemma NotOneMore(p: int, q: int)
    requires IsPrime(p) && IsPrime(q) && p % 2 == 1 && q % 2 == 1 && q < 2 * p
    ensures (q - 1) % p != 0
  {
    if (q - 1) % p == 0 {
      var k := (q - 1) / p;
      ModIsZeroDivides(q - 1, p);
      if k >= 2 {
        MulMonotone(p, 2, k);
      }
    }
  }

  /** The example run: with keys from two distinct primes whose product
      exceeds 75, the three checks it prints hold: 15 + 20, 15 + 5 and
      15 * 5 come back from the ciphertexts. */
  lemma DemoChecks(p: int, q: int, r1: nat, r2: nat)
    requires IsPrime(p) && IsPrime(q) && p != q && KeypairFrom(p, q).Returned? && p * q > 75
    requires Gcd(r1, p * q) == 1 && Gcd(r2, p * q) == 1
    ensures var keys := KeypairFrom(p, q).value;
            var c1, c2 := EncryptWith(15, keys.0, r1), EncryptWith(20, keys.0, r2);
            Decrypt(HomomorphicAdd(c1, c2, keys.0), keys.1) == 15 + 20 &&
            Decrypt(HomomorphicAddConstant(c1, 5, keys.0), keys.1) == 15 + 5 &&
            Decrypt(HomomorphicMultiplyConstant(c1, 5, keys.0), keys.1) == 15 * 5
  {
    AddHomomorphic(p, q, 15, 20, r1, r2);
    AddConstantHomomorphic(p, q, 15, 5, r1);
    MultiplyConstantHomomorphic(p, q, 15, 5, r1);
    ModSmall(35, p * q);
    ModSmall(20, p * q);
    ModSmall(75, p * q);
  }
}
