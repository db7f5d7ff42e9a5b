/** Textbook RSA signatures without padding: a key from two primes p and q
    (n = p * q, e = 65537, d the inverse of e modulo (p - 1) * (q - 1)),
    signing a message hash as hash^d mod n and verifying by comparing
    signature^e mod n with the hash. The primes and the SHA-256 hash of the
    message are inputs. */
module Rsa {
  import opened ModArith
  import opened Primes
  import opened Outcomes

  /** The public exponent every key uses. */
  const PublicExponent: nat := 65537

  /** The fields `RSAKey.__init__` assigns once. */
  datatype RsaKey = RsaKey(n: int, e: nat, d: nat)

  /** phi = (p - 1) * (q - 1). */
  function Phi(p: int, q: int): (r: int)
    requires p > 1 && q > 1
    ensures r >= p - 1 && r >= q - 1
  {
    MulMonotone(p - 1, 1, q - 1);
    MulMonotone(q - 1, 1, p - 1);
    (p - 1) * (q - 1)
  }

  /** `RSAKey.__init__` once p and q are drawn: n = p * q, e = 65537 and
      d = pow(e, -1, phi), which raises when e has no inverse modulo phi. */
  function KeyFrom(p: int, q: int): (r: Outcome<RsaKey>)
    requires p > 1 && q > 1
    ensures r.Raised? ==> r.error == NotInvertible && forall v :: !IsInverse(PublicExponent, v, Phi(p, q))
    ensures r.Returned? ==> r.value.n == p * q && r.value.e == PublicExponent
    ensures r.Returned? ==> r.value.d < Phi(p, q) && IsInverse(PublicExponent, r.value.d, Phi(p, q))
  {
    match ModInverse(PublicExponent, Phi(p, q))
    case None => Raised(NotInvertible)
    case Some(d) => Returned(RsaKey(p * q, PublicExponent, d))
  }

  /** `public_key`: the pair (n, e). */
  function PublicKey(key: RsaKey): (int, nat)
  {
    (key.n, key.e)
  }

  /** `private_key`: the pair (n, d). */
  function PrivateKey(key: RsaKey): (int, nat)
  {
    (key.n, key.d)
  }

  /** `rsa_sign` on the message's hash: pow(hash, d, n). */
  function Sign(hash: nat, privateKey: (int, nat)): (r: int)
    requires privateKey.0 > 0
    ensures 0 <= r < privateKey.0
  {
    ModPow(hash, privateKey.1, privateKey.0)
  }

  /** `rsa_verify` on the message's hash: pow(signature, e, n) == hash.
      Only a hash below n can be accepted. */
  function Verify(hash: nat, signature: int, publicKey: (int, nat)): (r: bool)
    requires publicKey.0 > 0
    ensures r ==> hash < publicKey.0
    ensures r <==> Pow(signature, publicKey.1) % publicKey.0 == hash
  {
    ModPow(signature, publicKey.1, publicKey.0) == hash
  }

  // ---------------------------------------------------------------------
  // The key

  /** The keys of a constructed key share n = p * q; the public exponent is
      65537 and the private one inverts it modulo phi. */
  lemma KeyPair(p: int, q: int)
    requires p > 1 && q > 1 && KeyFrom(p, q).Returned?
    ensures PublicKey(KeyFrom(p, q).value) == (p * q, 65537)
    ensures PrivateKey(KeyFrom(p, q).value).0 == p * q
    ensures (65537 * PrivateKey(KeyFrom(p, q).value).1) % ((p - 1) * (q - 1)) == 1 % ((p - 1) * (q - 1))
  {
  }

  /** For primes p and q the key exists exactly when 65537 divides neither
      p - 1 nor q - 1. */
  lemma {:induction false} KeyExists(p: int, q: int)
    requires IsPrime(p) && IsPrime(q)
    ensures KeyFrom(p, q).Returned? <==> (p - 1) % 65537 != 0 && (q - 1) % 65537 != 0
  {
    var phi := Phi(p, q);
    ExponentIsPrime();
    if (p - 1) % 65537 != 0 && (q - 1) % 65537 != 0 {
      PrimeProductNonZero(65537, p - 1, q - 1);
      CoprimePhiInvertible(phi);
    } else {
      if (p - 1) % 65537 == 0 {
        ModZeroFactor(p - 1, q - 1, 65537);
      } else {
        ModZeroFactor(q - 1, p - 1, 65537);
        assert (q - 1) * (p - 1) == phi;
      }
      DivisiblePhiNotInvertible(phi);
    }
  }

  /** When 65537 does not divide phi, it has an inverse modulo phi. */
  lemma CoprimePhiInvertible(phi: int)
    requires phi > 0 && IsPrime(65537) && phi % 65537 != 0
    ensures ModInverse(PublicExponent, phi).Some?
  {
    PrimeInvertible(65537, phi);
    var u := ModInverse(phi, 65537).value;
    var k := (phi * u) / 65537;
    ModSmall(1, 65537);
    assert phi * u == 65537 * k + 1;
    assert 65537 * -k == 1 + phi * -u;
    ModAddMultiple(1, -u, phi);
    assert IsInverse(PublicExponent, -k, phi);
  }

  /** When 65537 divides phi, it has no inverse modulo phi. */
  lemma DivisiblePhiNotInvertible(phi: int)
    requires phi > 0 && phi % 65537 == 0
    ensures ModInverse(PublicExponent, phi).None?
  {
    if ModInverse(PublicExponent, phi).Some? {
      DivisorHasNoInverse(65537, ModInverse(PublicExponent, phi).value, phi);
    }
  }

  /** e * v is never 1 modulo a multiple of e > 1. */
  lemma DivisorHasNoInverse(e: int, v: int, phi: int)
    requires e > 1 && phi > 0 && phi % e == 0
    ensures (e * v) % phi != 1 % phi
  {
    var k := phi / e;
    ModIsZeroDivides(phi, e);
    if k <= 0 {
      MulMonotone(e, k, 0);
    }
    MulMonotone(e, 1, k);
    ModSmall(1, phi);
    if (e * v) % phi == 1 {
      var j := (e * v) / phi;
      var w := v - k * j;
      assert e * v == phi * j + 1;
      assert e * w == 1 by {
        assert phi * j == e * (k * j);
        assert e * w == e * v - e * (k * j);
      }
      if w >= 1 {
        MulMonotone(e, 1, w);
      } else {
        MulMonotone(e, w, 0);
      }
    }
  }

  // ---------------------------------------------------------------------
  // 65537 is prime

  /** n has no divisor among the odd numbers lo, lo + 2, ... below hi. */
  predicate OddTrial(n: int, lo: int, hi: int)
    requires lo > 0
    decreases hi - lo
  {
    lo >= hi || (n % lo != 0 && OddTrial(n, lo + 2, hi))
  }

  lemma {:induction false} NoOddDivisorHolds(n: int, lo: int, hi: int, k: int)
    requires lo > 0 && OddTrial(n, lo, hi) && lo <= k < hi && (k - lo) % 2 == 0
    ensures n % k != 0
    decreases hi - lo
  {
    if lo < k {
      NoOddDivisorHolds(n, lo + 2, hi, k);
    }
  }

  // Trial division of 65537 by the odd numbers from 255 down to 3.

  lemma NoOddDivisorFrom193()
    ensures OddTrial(65537, 193, 257)
  {
    assert OddTrial(65537, 255, 257) && OddTrial(65537, 253, 257) && OddTrial(65537, 251, 257) && OddTrial(65537, 249, 257);
    assert OddTrial(65537, 247, 257) && OddTrial(65537, 245, 257) && OddTrial(65537, 243, 257) && OddTrial(65537, 241, 257);
    assert OddTrial(65537, 239, 257) && OddTrial(65537, 237, 257) && OddTrial(65537, 235, 257) && OddTrial(65537, 233, 257);
    assert OddTrial(65537, 231, 257) && OddTrial(65537, 229, 257) && OddTrial(65537, 227, 257) && OddTrial(65537, 225, 257);
    assert OddTrial(65537, 223, 257) && OddTrial(65537, 221, 257) && OddTrial(65537, 219, 257) && OddTrial(65537, 217, 257);
    assert OddTrial(65537, 215, 257) && OddTrial(65537, 213, 257) && OddTrial(65537, 211, 257) && OddTrial(65537, 209, 257);
    assert OddTrial(65537, 207, 257) && OddTrial(65537, 205, 257) && OddTrial(65537, 203, 257) && OddTrial(65537, 201, 257);
    assert OddTrial(65537, 199, 257) && OddTrial(65537, 197, 257) && OddTrial(65537, 195, 257) && OddTrial(65537, 193, 257);
  }

  lemma NoOddDivisorFrom129()
    requires OddTrial(65537, 193, 257)
    ensures OddTrial(65537, 129, 257)
  {
    assert OddTrial(65537, 191, 257) && OddTrial(65537, 189, 257) && OddTrial(65537, 187, 257) && OddTrial(65537, 185, 257);
    assert OddTrial(65537, 183, 257) && OddTrial(65537, 181, 257) && OddTrial(65537, 179, 257) && OddTrial(65537, 177, 257);
    assert OddTrial(65537, 175, 257) && OddTrial(65537, 173, 257) && OddTrial(65537, 171, 257) && OddTrial(65537, 169, 257);
    assert OddTrial(65537, 167, 257) && OddTrial(65537, 165, 257) && OddTrial(65537, 163, 257) && OddTrial(65537, 161, 257);
    assert OddTrial(65537, 159, 257) && OddTrial(65537, 157, 257) && OddTrial(65537, 155, 257) && OddTrial(65537, 153, 257);
    assert OddTrial(65537, 151, 257) && OddTrial(65537, 149, 257) && OddTrial(65537, 147, 257) && OddTrial(65537, 145, 257);
    assert OddTrial(65537, 143, 257) && OddTrial(65537, 141, 257) && OddTrial(65537, 139, 257) && OddTrial(65537, 137, 257);
    assert OddTrial(65537, 135, 257) && OddTrial(65537, 133, 257) && OddTrial(65537, 131, 257) && OddTrial(65537, 129, 257);
  }

  lemma NoOddDivisorFrom65()
    requires OddTrial(65537, 129, 257)
    ensures OddTrial(65537, 65, 257)
  {
    assert OddTrial(65537, 127, 257) && OddTrial(65537, 125, 257) && OddTrial(65537, 123, 257) && OddTrial(65537, 121, 257);
    assert OddTrial(65537, 119, 257) && OddTrial(65537, 117, 257) && OddTrial(65537, 115, 257) && OddTrial(65537, 113, 257);
    assert OddTrial(65537, 111, 257) && OddTrial(65537, 109, 257) && OddTrial(65537, 107, 257) && OddTrial(65537, 105, 257);
    assert OddTrial(65537, 103, 257) && OddTrial(65537, 101, 257) && OddTrial(65537, 99, 257) && OddTrial(65537, 97, 257);
    assert OddTrial(65537, 95, 257) && OddTrial(65537, 93, 257) && OddTrial(65537, 91, 257) && OddTrial(65537, 89, 257);
    assert OddTrial(65537, 87, 257) && OddTrial(65537, 85, 257) && OddTrial(65537, 83, 257) && OddTrial(65537, 81, 257);
    assert OddTrial(65537, 79, 257) && OddTrial(65537, 77, 257) && OddTrial(65537, 75, 257) && OddTrial(65537, 73, 257);
    assert OddTrial(65537, 71, 257) && OddTrial(65537, 69, 257) && OddTrial(65537, 67, 257) && OddTrial(65537, 65, 257);
  }

  lemma NoOddDivisorFrom3()
    requires OddTrial(65537, 65, 257)
    ensures OddTrial(65537, 3, 257)
  {
    assert OddTrial(65537, 63, 257) && OddTrial(65537, 61, 257) && OddTrial(65537, 59, 257) && OddTrial(65537, 57, 257);
    assert OddTrial(65537, 55, 257) && OddTrial(65537, 53, 257) && OddTrial(65537, 51, 257) && OddTrial(65537, 49, 257);
    assert OddTrial(65537, 47, 257) && OddTrial(65537, 45, 257) && OddTrial(65537, 43, 257) && OddTrial(65537, 41, 257);
    assert OddTrial(65537, 39, 257) && OddTrial(65537, 37, 257) && OddTrial(65537, 35, 257) && OddTrial(65537, 33, 257);
    assert OddTrial(65537, 31, 257) && OddTrial(65537, 29, 257) && OddTrial(65537, 27, 257) && OddTrial(65537, 25, 257);
    assert OddTrial(65537, 23, 257) && OddTrial(65537, 21, 257) && OddTrial(65537, 19, 257) && OddTrial(65537, 17, 257);
    assert OddTrial(65537, 15, 257) && OddTrial(65537, 13, 257) && OddTrial(65537, 11, 257) && OddTrial(65537, 9, 257);
    assert OddTrial(65537, 7, 257) && OddTrial(65537, 5, 257) && OddTrial(65537, 3, 257);
  }

  /** 65537 is odd, so it has no even divisor. */
  lemma NoEvenDivisor(d: int)
    requires d > 0 && d % 2 == 0
    ensures 65537 % d != 0
  {
    if 65537 % d == 0 {
      ModIsZeroDivides(65537, d);
      ModIsZeroDivides(d, 2);
      var c, j := 65537 / d, d / 2;
      assert 65537 == (2 * j) * c;
      MulSwap(2, j, c);
      ModOfMultiple(j * c, 2);
    }
  }

  /** 65537 has no divisor in [2, 257). */
  lemma SmallDivisor(d: int)
    requires 2 <= d < 257
    ensures 65537 % d != 0
  {
    if d % 2 == 0 {
      NoEvenDivisor(d);
    } else {
      NoOddDivisorFrom193();
      NoOddDivisorFrom129();
      NoOddDivisorFrom65();
      NoOddDivisorFrom3();
      NoOddDivisorHolds(65537, 3, 257, d);
    }
  }

  /** A divisor of 65537 in [257, 65537) would leave a cofactor in
      [2, 257). */
  lemma LargeDivisor(d: int)
    requires 257 <= d < 65537
    ensures 65537 % d != 0
  {
    if 65537 % d == 0 {
      var c := 65537 / d;
      ModIsZeroDivides(65537, d);
      if c <= 1 {
        MulMonotone(d, c, 1);
      } else if c >= 257 {
        MulMonotone(d, 257, c);
        MulMonotone(257, 257, d);
      } else {
        MulSwap(1, d, c);
        assert c * d == 65537;
        ModOfMultiple(d, c);
        SmallDivisor(c);
      }
    }
  }

  /** The public exponent is prime. */
  lemma ExponentIsPrime()
    ensures IsPrime(65537)
  {
    forall d | 1 < d < 65537
      ensures !Divides(d, 65537)
    {
      if d < 257 {
        SmallDivisor(d);
      } else {
        LargeDivisor(d);
      }
    }
  }

  // ---------------------------------------------------------------------
  // Signing and verifying

  /** x^m is x modulo a prime p whenever m - 1 is a multiple of p - 1. */
  lemma PrimePowerStep(p: int, x: int, m: nat)
    requires IsPrime(p) && m >= 1 && (m - 1) % (p - 1) == 0
    ensures Pow(x, m) % p == x % p
  {
    assert Pow(x, m) == x * Pow(x, m - 1);
    if x % p == 0 {
      ModMulLeft(x, Pow(x, m - 1), p);
    } else {
      FermatMultiple(x, p, m - 1);
      ModMulRight(x, Pow(x, m - 1), p);
    }
  }

  /** e * d - 1 is a multiple of both p - 1 and q - 1 when d inverts e
      modulo phi. */
  lemma InverseExponents(p: int, q: int, e: nat, d: nat)
    requires IsPrime(p) && IsPrime(q) && p != q && IsInverse(e, d, Phi(p, q))
    ensures e * d >= 1 && (e * d - 1) % (p - 1) == 0 && (e * d - 1) % (q - 1) == 0
  {
    var phi := Phi(p, q);
    assert phi > 1;
    ModSmall(1, phi);
    var m: nat := e * d;
    var k := m / phi;
    assert m == phi * k + 1;
    assert m - 1 == (p - 1) * ((q - 1) * k) by {
      MulSwap(p - 1, q - 1, k);
    }
    assert m - 1 == (q - 1) * ((p - 1) * k) by {
      MulSwap(q - 1, p - 1, k);
      assert (q - 1) * (p - 1) == phi;
    }
    ModOfMultiple((q - 1) * k, p - 1);
    ModOfMultiple((p - 1) * k, q - 1);
  }

  /** Numbers congruent modulo two coprime moduli are congruent modulo
      their product. */
  lemma CongruentModProduct(p: int, q: int, a: int, b: int)
    requires p > 0 && q > 0 && Gcd(p, q) == 1 && a % p == b % p && a % q == b % q
    ensures a % (p * q) == b % (p * q)
  {
    var x := a - b;
    assert x % p == 0 by {
      ModSub(a, b, p);
    }
    assert x % q == 0 by {
      ModSub(a, b, q);
    }
    var n := p * q;
    assert x % n == 0 by {
      CoprimeDivisorsProduct(p, q, x);
    }
    var k := x / n;
    assert a == b + n * k by {
      ModIsZeroDivides(x, n);
    }
    ModAddMultiple(b, k, n);
  }

  /** Raising to e * d, with e * d == 1 modulo phi, gives back every x
      modulo n = p * q for distinct primes p and q. */
  lemma ExponentsCancel(p: int, q: int, e: nat, d: nat, x: int)
    requires IsPrime(p) && IsPrime(q) && p != q && IsInverse(e, d, Phi(p, q))
    ensures Pow(x, e * d) % (p * q) == x % (p * q)
  {
    InverseExponents(p, q, e, d);
    PrimePowerStep(p, x, e * d);
    PrimePowerStep(q, x, e * d);
    DistinctPrimesCoprime(p, q);
    CongruentModProduct(p, q, Pow(x, e * d), x);
  }

  /** pow(pow(x, a, n), b, n) == x^(a * b) mod n. */
  lemma PowTwice(x: int, a: nat, b: nat, n: int)
    requires n > 0
    ensures Pow(Pow(x, a) % n, b) % n == Pow(x, a * b) % n
  {
    PowMod(Pow(x, a), b, n);
    PowMul(x, a, b);
  }

  /** A signature made with the private key verifies under the public key,
      for distinct primes and a hash below n. */
  lemma SignThenVerify(p: int, q: int, hash: nat)
    requires IsPrime(p) && IsPrime(q) && p != q && KeyFrom(p, q).Returned?
    requires hash < p * q
    ensures var key := KeyFrom(p, q).value;
            Verify(hash, Sign(hash, PrivateKey(key)), PublicKey(key))
  {
    var key := KeyFrom(p, q).value;
    var n := p * q;
    PowTwice(hash, key.d, key.e, n);
    assert key.d * key.e == key.e * key.d;
    ExponentsCancel(p, q, key.e, key.d, hash);
    ModSmall(hash, n);
  }

  /** The signature of a hash is the only one in [0, n) that verifies. */
  lemma SignatureUnique(p: int, q: int, hash: nat, signature: int)
    requires IsPrime(p) && IsPrime(q) && p != q && KeyFrom(p, q).Returned?
    requires 0 <= signature < p * q
    requires Verify(hash, signature, PublicKey(KeyFrom(p, q).value))
    ensures signature == Sign(hash, PrivateKey(KeyFrom(p, q).value))
  {
    var key := KeyFrom(p, q).value;
    var n := p * q;
    PowTwice(signature, key.e, key.d, n);
    ExponentsCancel(p, q, key.e, key.d, signature);
    ModSmall(signature, n);
  }

  /** The example run: with two distinct primes of 1024 bits (at least
      2^1023, as `generate_prime` sets the top bit) and a 256-bit hash, the
      key exists unless 65537 divides p - 1 or q - 1, and the signature of
      the hash verifies. */
  lemma DemoSignatureValid(p: int, q: int, hash: nat)
    requires IsPrime(p) && IsPrime(q) && p != q
    requires p >= Pow(2, 1023) && q >= Pow(2, 1023) && hash < Pow(2, 256)
    requires (p - 1) % 65537 != 0 && (q - 1) % 65537 != 0
    ensures KeyFrom(p, q).Returned?
    ensures var key := KeyFrom(p, q).value;
            Verify(hash, Sign(hash, PrivateKey(key)), PublicKey(key))
  {
    KeyExists(p, q);
    PowMonotone(2, 256, 1023);
    PowMonotone(2, 0, 1023);
    assert Pow(2, 0) == 1;
    MulMonotone(p, 1, q);
    SignThenVerify(p, q, hash);
  }

  /** Powers of a base of at least 1 grow with the exponent. */
  lemma {:induction false} PowMonotone(b: int, e1: nat, e2: nat)
    requires b >= 1 && e1 <= e2
    ensures 1 <= Pow(b, e1) <= Pow(b, e2)
    decreases e2
  {
    if e1 < e2 {
      PowMonotone(b, e1, e2 - 1);
      MulMonotone(Pow(b, e2 - 1), 1, b);
    } else if e1 > 0 {
      PowMonotone(b, e1 - 1, e1 - 1);
      MulMonotone(Pow(b, e1 - 1), 1, b);
    }
  }
}
