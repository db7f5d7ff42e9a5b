# Threshold keys, secret sharing, commitments and homomorphic encryption in Dafny

This project models seven small cryptographic programs. For each one it proves the property the program exists for:

- **Dynamic consortium keys.**
  - A `ConsortiumKeyManager` holds the members of a consortium. Each member has an id, a share, a public key and an active flag. The shares are evaluations of a secret polynomial over a prime field.
  - The manager can set up initial shares and collect a threshold of shares.
  - It can add a member. The new share is interpolated from a quorum.
  - It can remove a member. It re-interpolates the polynomial and redistributes fresh shares that keep the master secret.
  - It can sign a message as `hash^secret mod prime` from a threshold of signers.
  - The `Polynomial` helper (evaluate, multiply, scale, add, Lagrange interpolate) is modelled with it.
- **Shamir key backup.** A secret is split into `n` shares with threshold `t`. Any `t` distinct shares reconstruct it.
- **Publicly verifiable secret sharing.**
  - The dealer publishes Feldman commitments `g^a_j mod p` to the coefficients.
  - A share verifies against the commitments exactly when it is the polynomial's value.
  - Lagrange interpolation at 0 recovers the secret.
- **Threshold Pedersen.**
  - A dealer shares `s` and a blinding value `t` with two polynomials and commits to them with `g^s h^t mod p`.
  - Any `k` shares with distinct indices reconstruct `(s mod q, t mod q)`.
  - The recomputed commitment equals the published one.
- **Pedersen commitment scheme.**
  - This covers commit, verify and the binding attack that works when `log_g h` is known.
  - The program computes modulo `q` where its own documentation says modulo `p`. See "## Findings".
- **Paillier.**
  - This covers key generation, encryption and decryption, and the three homomorphic operations.
  - Decryption inverts encryption.
  - Adding ciphertexts adds plaintexts. Adding a constant and multiplying by a constant work the same way.
- **RSA signatures.**
  - The private exponent inverts 65537 modulo `(p-1)(q-1)`. Key generation fails exactly when 65537 divides `p-1` or `q-1`.
  - A signature verifies, and it is the only one below `n` that does.

Python's `pow(b, e, m)` with `e >= 0` is `ModArith.ModPow`, which is `Pow(b, e) % m`. `pow(x, -1, m)` is `Primes.ModInverse`, an extended-Euclid inverse. It returns `None` exactly when `gcd(x, m) != 1`, which is where Python raises `ValueError`. Exceptions become the `Raised` case of `Outcomes.Outcome`:

| Python condition | `Raised` case |
|---|---|
| threshold above the number of shares | `ThresholdTooLarge` |
| secret too large | `SecretTooLarge` |
| no shares | `NoShares` |
| non-invertible denominator | `NotInvertible` |

Random draws, generated primes and message hashes are parameters.

The modules and the source files they follow:

| module | file | models |
|---|---|---|
| `Outcomes` | `outcomes.dfy` | `Option`, `Outcome`, `Error` |
| `ModArith` | `mod_arith.dfy` | `Pow`, `ModPow` and modular arithmetic lemmas |
| `Primes` | `primes.dfy` | gcd, the modular inverse, primes, Fermat's little theorem |
| `PolyMath` | `poly_math.dfy` | polynomial value and evaluation mod p, uniqueness of a polynomial by its roots |
| `Polynomials` | `polynomial.dfy` | the `Polynomial` class of `dynamic_consortium_keys.py` and the theory of its Lagrange interpolation |
| `LagrangeZero` | `lagrange_zero.dfy` | the Lagrange basis evaluated at 0, shared by the reconstruction routines |
| `ConsortiumKeys` | `consortium_keys.dfy` | `dynamic_consortium_keys.py` |
| `ShamirKeyBackup` | `shamir_key_backup.dfy` | `shamir_key_backup.py` |
| `Pvss` | `pvss.dfy` | `public_verifiable_secret_sharing.py` |
| `ThresholdPedersen` | `threshold_pedersen.dfy` | `threshold_pedersen.py` |
| `PedersenCommitmentScheme` | `pedersen_commitment.dfy` | `pedersen_commitment_scheme.py` |
| `Paillier` | `paillier.dfy` | `paillier.py` |
| `Rsa` | `rsa.dfy` | `rsa.py` |

How the model is shaped:

- Code that mutates objects is modelled as classes with `modifies` frames. That covers the consortium manager and its `Member` objects, and the Shamir class.
- Code with loops is modelled as methods with loop invariants. Each method is proved equal to a specification function.
- The properties are proved as lemmas about those functions.

## Model

| member | source | states |
|---|---|---|
| `Polynomials.Evaluate` | dynamic_consortium_keys.py:19-28 | the loop that accumulates powers of x returns the polynomial's value at x modulo the prime |
| `Polynomials.MultiplyTerms` | dynamic_consortium_keys.py:56-64 | the double loop over an array builds the product polynomial `MulSpec`, of length len(p1)+len(p2)-1 |
| `Polynomials.MulSpecEval` | dynamic_consortium_keys.py:56-64 | the product polynomial evaluates to the product of the two values modulo the prime, at every x |
| `Polynomials.ScalarMultiply` | dynamic_consortium_keys.py:66-69 | scaling keeps the length and reduces every coefficient into [0, prime) |
| `Polynomials.ScalarMultiplyEval` | dynamic_consortium_keys.py:66-69 | a scaled polynomial evaluates to scalar times the value, modulo the prime |
| `Polynomials.AddPolynomials` | dynamic_consortium_keys.py:71-82 | the zero-padding loop computes `AddSpec`, of length max(len(p1), len(p2)) |
| `Polynomials.AddSpecEval` | dynamic_consortium_keys.py:71-82 | the sum evaluates to the sum of the values modulo the prime |
| `Polynomials.Basis` | dynamic_consortium_keys.py:39-45 | the inner loop yields the basis numerator prod (x - x_j) and the denominator prod (x_i - x_j) over j != i |
| `Polynomials.Interpolate` | dynamic_consortium_keys.py:31-53 | the interpolation loop returns exactly `InterpolateSpec`, raising at the first non-invertible denominator |
| `Polynomials.OuterStep` | dynamic_consortium_keys.py:47-51 | one outer round adds y_i * inverse(denominator) times the numerator, or the whole interpolation raises |
| `Polynomials.DenominatorInvertibleIff` | dynamic_consortium_keys.py:45-47 | pow(denominator, -1, prime) exists iff x_i differs modulo the prime from every other x_j |
| `Polynomials.InterpolateSucceedsIff` | dynamic_consortium_keys.py:31-53 | interpolation succeeds iff all x are distinct modulo the prime; otherwise it raises `NotInvertible` |
| `Polynomials.InterpolateHitsPoints` | dynamic_consortium_keys.py:31-53 | for distinct x the interpolated polynomial passes through every point and has one coefficient per point |
| `Polynomials.InterpolateUnique` | dynamic_consortium_keys.py:31-53 | any polynomial with at most as many coefficients as points that fits the points agrees everywhere with the interpolated one |
| `Polynomials.InterpolateSpec` | dynamic_consortium_keys.py:53 | a returned polynomial carries the same prime and reduced coefficients |
| `ConsortiumKeys.Member.constructor` | dynamic_consortium_keys.py:85-90 | a new member has the given id, share and public key and is active |
| `ConsortiumKeys.ConsortiumKeyManager.Create` | dynamic_consortium_keys.py:94-111 | raises `ThresholdTooLarge` iff threshold > initial members; otherwise a valid manager with ids 1..n all active |
| `ConsortiumKeys.ConsortiumKeyManager.constructor` | dynamic_consortium_keys.py:104-111 | the manager is valid, its polynomial is [master secret] + draws, and ids 1..n are registered in order |
| `ConsortiumKeys.ConsortiumKeyManager.SetupInitialShares` | dynamic_consortium_keys.py:113-131 | every member i in 1..n gets share f(i) and public key share^2 mod prime, and f(0) is the master secret |
| `ConsortiumKeys.ConsortiumKeyManager.CollectThresholdShares` | dynamic_consortium_keys.py:187-199 | the loop over members in insertion order returns `Collected`: the first max(threshold, 1) active, non-excluded shares, or None when there are fewer than threshold |
| `ConsortiumKeys.CollectedProperties` | dynamic_consortium_keys.py:187-199 | the result is None iff fewer than threshold members qualify; otherwise it is a prefix of the qualifying shares with distinct ids and exactly threshold entries (threshold >= 1) |
| `ConsortiumKeys.EligibleFacts` | dynamic_consortium_keys.py:193-195 | collected pairs are active, not excluded, carry the member's own share, and keep ids distinct |
| `ConsortiumKeys.ReconstructOnPolynomial` | dynamic_consortium_keys.py:139-144 | when every share lies on the secret polynomial, collecting and interpolating yields None iff too few qualify, raises (`NotInvertible`) iff two ids of the non-empty quorum coincide modulo the prime, and otherwise returns a polynomial equal to the secret one everywhere |
| `ConsortiumKeys.QuorumRecovers` | dynamic_consortium_keys.py:144 | interpolating at least deg+1 correct shares recovers the master secret as coefficient 0 |
| `ConsortiumKeys.ConsortiumKeyManager.AddMember` | dynamic_consortium_keys.py:133-155 | None for a known id or too few shares; otherwise a fresh active member whose share is the secret polynomial at its id, appended to the register, with the rest unchanged |
| `ConsortiumKeys.ConsortiumKeyManager.NewShare` | dynamic_consortium_keys.py:135-147 | the share computation equals the specification `AddedShare` |
| `ConsortiumKeys.AddedShareOnPolynomial` | dynamic_consortium_keys.py:133-148 | the new share is None iff the id is taken or too few members qualify; it raises iff the id is new and two quorum ids coincide modulo the prime; otherwise it equals the secret polynomial at the new id |
| `ConsortiumKeys.ConsortiumKeyManager.Enroll` | dynamic_consortium_keys.py:148-153 | the new member is registered with public key share^2 mod prime and the manager stays valid |
| `ConsortiumKeys.Enrolled` | dynamic_consortium_keys.py:151-153 | enrolling a share on the polynomial keeps all shares on it and adds exactly the new id to the active set |
| `ConsortiumKeys.ConsortiumKeyManager.RemoveMember` | dynamic_consortium_keys.py:157-185 | returns False (state unchanged) iff the member is unknown, inactive or too few others qualify; otherwise the manager stays valid with the same master secret, the leaver inactive and all other active shares on the new polynomial |
| `ConsortiumKeys.ConsortiumKeyManager.RemovalCoefficients` | dynamic_consortium_keys.py:159-173 | the new coefficients equal the specification `RemovalPolynomial` |
| `ConsortiumKeys.RemovalKeepsSecret` | dynamic_consortium_keys.py:159-173 | None iff the leaver is not active or too few others qualify; raises iff two quorum ids coincide modulo the prime; otherwise the new polynomial is [old secret] + draws, so the master secret is kept |
| `ConsortiumKeys.ConsortiumKeyManager.Redistribute` | dynamic_consortium_keys.py:176-183 | every other active member gets the new polynomial's value and key, inactive members are untouched, and the leaver is deactivated |
| `ConsortiumKeys.ConsortiumKeyManager.Rekey` | dynamic_consortium_keys.py:176-179 | the loop over the member objects updates each one exactly as `Rekeyed` says |
| `ConsortiumKeys.Redistributed` | dynamic_consortium_keys.py:176-183 | the register keeps its ids; only the leaver changes activity; inactive members keep their state |
| `ConsortiumKeys.RedistributedOnPolynomial` | dynamic_consortium_keys.py:176-183 | after redistribution every active share lies on the new polynomial and the active set loses exactly the leaver |
| `ConsortiumKeys.ConsortiumKeyManager.SignMessage` | dynamic_consortium_keys.py:201-224 | the signature equals the specification `Signature`, and a returned signature passes `VerifySignature` (threshold >= 1) |
| `ConsortiumKeys.SignatureIsSecretPower` | dynamic_consortium_keys.py:201-224 | the result is None iff there are fewer signers than threshold or one of the first threshold signers is not active; it raises iff those signers all qualify but two of them coincide modulo the prime; otherwise it is hash^secret mod prime |
| `ConsortiumKeys.ConsortiumKeyManager.SignThenVerify` | dynamic_consortium_keys.py:201-233 | when the first threshold signers are active and their ids differ modulo the prime, `sign_message` returns a signature and `verify_signature` accepts it |
| `ConsortiumKeys.SignersBeyondThresholdIgnored` | dynamic_consortium_keys.py:212 | only the first threshold signers matter |
| `ConsortiumKeys.PyPrefix` | dynamic_consortium_keys.py:212 | Python's slice `signers[:threshold]` is a prefix of the list, including for threshold <= 0 |
| `ShamirKeyBackup.ShamirSecretSharing.constructor` | shamir_key_backup.py:20-22 | the instance holds the given safe prime |
| `ShamirKeyBackup.ShamirSecretSharing.SplitSecret` | shamir_key_backup.py:24-51 | raises `ThresholdTooLarge` when threshold > total, else `SecretTooLarge` when secret >= prime, else shares (i, f(i)) for i in 1..n with f = [secret] + draws |
| `ShamirKeyBackup.ShamirSecretSharing.EvaluatePolynomial` | shamir_key_backup.py:83-92 | the loop returns the polynomial's value at x modulo the prime |
| `ShamirKeyBackup.ShamirSecretSharing.ReconstructSecret` | shamir_key_backup.py:53-81 | the loop equals `ReconstructSpec`, and a returned secret lies in [0, prime) |
| `ShamirKeyBackup.SumAtZero` | shamir_key_backup.py:60-81 | the running sum of y_i * l_i(0) is the value at 0 of the full Lagrange interpolation, or it raises where interpolation raises |
| `ShamirKeyBackup.AddPointTerm` | shamir_key_backup.py:62-79 | one loop round adds the term for point i, or reports that pow(denominator, -1, prime) fails |
| `ShamirKeyBackup.ReconstructFailsIff` | shamir_key_backup.py:53-81 | no shares raises `NoShares`; otherwise reconstruction raises iff two indices coincide modulo the prime, and then with `NotInvertible` |
| `ShamirKeyBackup.ReconstructRecovers` | shamir_key_backup.py:53-81 | shares on a polynomial of degree below their count reconstruct its constant term |
| `ShamirKeyBackup.SplitThenReconstruct` | shamir_key_backup.py:24-81 | any threshold or more distinct shares from a split reconstruct the secret |
| `ShamirKeyBackup.ExampleSubsets` | shamir_key_backup.py:153-171 | the 3-of-5 example: shares {1,2,3}, {1,3,5} and all five each return the secret |
| `Pvss.Inverse` | public_verifiable_secret_sharing.py:13-16 | the Fermat inverse lies in [0, q) |
| `Pvss.InverseIsInverse` | public_verifiable_secret_sharing.py:13-16 | for prime q and x not divisible by q, x * x^(q-2) is 1 mod q |
| `Pvss.InverseAgrees` | public_verifiable_secret_sharing.py:13-16 | whenever an inverse exists, the Fermat inverse is it |
| `Pvss.GenerateRandomPoly` | public_verifiable_secret_sharing.py:18-29 | t+1 coefficients in [0, q): secret mod q, then the draws |
| `Pvss.EvalPoly` | public_verifiable_secret_sharing.py:31-38 | the loop returns the polynomial's value at x modulo q |
| `Pvss.ComputeShares` | public_verifiable_secret_sharing.py:40-49 | share i-1 is f(i) mod q for i in 1..n |
| `Pvss.CommitCoeffs` | public_verifiable_secret_sharing.py:51-57 | one commitment g^a_j mod p per coefficient |
| `Pvss.VerifyShare` | public_verifiable_secret_sharing.py:59-78 | accepts iff g^share mod p equals the product of C_j^(i^j mod q) mod p |
| `Pvss.HonestShareVerifies` | public_verifiable_secret_sharing.py:59-78 | when g has order dividing q, the honest share f(i) verifies against the coefficient commitments |
| `Pvss.VerifyShareExact` | public_verifiable_secret_sharing.py:59-78 | when g has order exactly q, a share below q verifies iff it equals f(i) mod q |
| `Pvss.LagrangeInterpolate` | public_verifiable_secret_sharing.py:80-101 | the nested loops compute `LagrangeSum`, the sum of y_i * l_i(0) mod q |
| `Pvss.LagrangeSum` | public_verifiable_secret_sharing.py:80-101 | the running sum stays in [0, q) |
| `Pvss.LagrangeSumInterpolates` | public_verifiable_secret_sharing.py:80-101 | for distinct x the sum equals the Lagrange interpolating polynomial at 0 |
| `Pvss.LagrangeRecovers` | public_verifiable_secret_sharing.py:80-101 | points on a polynomial of degree below their count give back its constant term |
| `Pvss.SharesThenInterpolate` | public_verifiable_secret_sharing.py:107-160 | any t+1 or more distinct shares of a dealing interpolate to the secret mod q |
| `ThresholdPedersen.PedersenCommit` | threshold_pedersen.py:116-124 | the commitment g^s * h^t mod p lies in [0, p) |
| `ThresholdPedersen.PedersenVerify` | threshold_pedersen.py:127-135 | accepts iff the commitment equals the commitment of the revealed (s, t) |
| `ThresholdPedersen.CommitModQ` | threshold_pedersen.py:325-332 | when g and h have order dividing q, committing to (s mod q, t mod q) gives the same commitment |
| `ThresholdPedersen.MakeRandomPolynomial` | threshold_pedersen.py:141-152 | degree+1 coefficients: the constant term, then the draws |
| `ThresholdPedersen.EvalPolynomial` | threshold_pedersen.py:155-166 | the loop returns the polynomial's value at x modulo q |
| `ThresholdPedersen.Dealer.Distribute` | threshold_pedersen.py:182-224 | E0 commits to (s, t); f = [s] + draws and g = [t] + draws have k coefficients; shares are f(i), g(i) mod q for i in 1..n; the printed commitments are those of coefficients 1..k-1 |
| `ThresholdPedersen.LagrangeBasisX0` | threshold_pedersen.py:257-276 | the loop computes `BasisX0`, num * den^-1 mod q, raising when the denominator has no inverse |
| `ThresholdPedersen.ReconstructSecret` | threshold_pedersen.py:229-291 | the loop equals `ReconstructSpec`: the interpolations at 0 of the s- and t-shares, or `NotInvertible` |
| `ThresholdPedersen.ReconstructFailsIff` | threshold_pedersen.py:229-291 | reconstruction raises iff two indices coincide modulo q, and then with `NotInvertible` |
| `ThresholdPedersen.ReconstructRecovers` | threshold_pedersen.py:229-291 | shares on polynomials f and g of degree below the count give back (f(0), g(0)) mod q |
| `ThresholdPedersen.DistributeThenReconstruct` | threshold_pedersen.py:297-334 | any k or more distinct shares from a dealing reconstruct (s mod q, t mod q), whose commitment equals E0 |
| `PedersenCommitmentScheme.Commit` | pedersen_commitment_scheme.py:105-118 | as written: the commitment is g^s * h^t reduced modulo q |
| `PedersenCommitmentScheme.Verify` | pedersen_commitment_scheme.py:121-134 | as written: accepts iff the commitment equals the modulo-q commitment of (s, t) |
| `PedersenCommitmentScheme.CommitModP` | pedersen_commitment_scheme.py:105-110 | as documented: the commitment is g^s * h^t reduced modulo p |
| `PedersenCommitmentScheme.VerifyModP` | pedersen_commitment_scheme.py:121-127 | as documented: accepts iff the commitment equals the modulo-p commitment of (s, t) |
| `PedersenCommitmentScheme.OpeningVerifies` | pedersen_commitment_scheme.py:137-168 | an honest opening verifies under both reductions |
| `PedersenCommitmentScheme.BindingBreak` | pedersen_commitment_scheme.py:27-31 | with h = g^2, any (s', t') with s + 2t = s' + 2t' opens the same commitment |
| `PedersenCommitmentScheme.AttackNonce` | pedersen_commitment_scheme.py:220-227 | t' exists iff 2 is invertible mod q, and then solves s' + 2t' = s + 2t (mod q) |
| `PedersenCommitmentScheme.AttackSucceeds` | pedersen_commitment_scheme.py:171-242 | when g has order dividing q and h = g^2 mod p, the forged opening (s', t') verifies against the modulo-p commitment |
| `PedersenCommitmentScheme.DemoInverseOfTwo` | pedersen_commitment_scheme.py:224 | pow(2, -1, 11) is 6 |
| `PedersenCommitmentScheme.DemoCommitsModP` | pedersen_commitment_scheme.py:39-57 | modulo p the documented values come out: commit(3, 1) = 9 and commit(3, 5) = 4 |
| `PedersenCommitmentScheme.DemoNonces` | pedersen_commitment_scheme.py:219-227 | the attack nonce is 4 for s' = 5 and 1 for s' = 0 |
| `PedersenCommitmentScheme.DemoAttackModP` | pedersen_commitment_scheme.py:171-242 | with p = 23, q = 11, g = 2, h = 4 the forgery verifies for every fake secret under the modulo-p scheme |
| `PedersenCommitmentScheme.DemoAsWritten` | pedersen_commitment_scheme.py:105-134 | as written, commit(3, 1) = 10 instead of the documented 9, and the forgery for s' = 0 is rejected |
| `Paillier.Lcm` | paillier.py:42-44 | the result is a common multiple and lcm * gcd = abs(a * b) |
| `Paillier.LcmLeast` | paillier.py:42-44 | every common multiple is a multiple of the lcm |
| `Paillier.KeypairFrom` | paillier.py:55-73 | n = pq, g = n+1, lambda = lcm(p-1, q-1), mu inverts L(g^lambda mod n^2) mod n; raises iff that inverse does not exist |
| `Paillier.GenerateKeypair` | paillier.py:46-73 | the retry loop takes the first drawn q different from p and builds `KeypairFrom(p, q)` |
| `Paillier.KeypairSucceeds` | paillier.py:46-73 | for distinct primes with neither dividing the other minus one, key generation does not raise |
| `Paillier.KeypairInverse` | paillier.py:59-68 | mu inverts lambda modulo n |
| `Paillier.SameLengthPrimes` | paillier.py:46-73 | odd distinct primes within a factor of two of each other always yield a key |
| `Paillier.EncryptWith` | paillier.py:87 | c = g^m * r^n mod n^2 |
| `Paillier.Encrypt` | paillier.py:75-88 | the retry loop takes the first drawn r coprime to n |
| `Paillier.Decrypt` | paillier.py:90-99 | the plaintext lies in [0, n) |
| `Paillier.DecryptEncrypt` | paillier.py:75-99 | decrypting an encryption with a nonce coprime to n returns every message below n |
| `Paillier.HomomorphicAdd` | paillier.py:101-105 | the product of ciphertexts mod n^2 is a ciphertext in [0, n^2) |
| `Paillier.AddHomomorphic` | paillier.py:101-105 | the product decrypts to (m1 + m2) mod n |
| `Paillier.HomomorphicAddConstant` | paillier.py:107-111 | c * g^k mod n^2 |
| `Paillier.AddConstantHomomorphic` | paillier.py:107-111 | the result decrypts to (m + k) mod n |
| `Paillier.HomomorphicMultiplyConstant` | paillier.py:113-117 | c^k mod n^2 |
| `Paillier.MultiplyConstantHomomorphic` | paillier.py:113-117 | the result decrypts to (m * k) mod n |
| `Paillier.DemoChecks` | paillier.py:119-152 | the demo's 15 + 20, 15 + 5 and 15 * 5 decrypt as printed whenever n > 75 |
| `Rsa.Phi` | rsa.py:63 | phi = (p-1)(q-1) is at least p-1 and q-1 |
| `Rsa.KeyFrom` | rsa.py:56-69 | n = pq, e = 65537, and d < phi inverts e mod phi; raises only when no inverse exists |
| `Rsa.KeyExists` | rsa.py:56-69 | for primes p and q, the key exists iff 65537 divides neither p-1 nor q-1 |
| `Rsa.ExponentIsPrime` | rsa.py:66 | 65537 is prime |
| `Rsa.KeyPair` | rsa.py:71-77 | the public key is (n, 65537), the private key has modulus n, and 65537 * d is 1 mod phi |
| `Rsa.Sign` | rsa.py:80-89 | the signature lies in [0, n) |
| `Rsa.Verify` | rsa.py:92-101 | accepts iff signature^e mod n equals the hash, which needs hash < n |
| `Rsa.SignThenVerify` | rsa.py:80-101 | a signature made with the private key verifies under the public key for every hash below n |
| `Rsa.SignatureUnique` | rsa.py:80-101 | the signature of a hash is the only value in [0, n) that verifies |
| `Rsa.DemoSignatureValid` | rsa.py:104-121 | for distinct 1024-bit primes with 65537 dividing neither p-1 nor q-1 and a hash below 2^256, the key exists and the signature verifies |

## Left out

- Prime generation (`generate_prime`, `generate_safe_prime`, `_generate_safe_prime`, the Miller–Rabin `is_prime` tests) is not modelled. It is probabilistic. Primes are parameters, required prime where the proofs need it.
- `random.randrange`, `random.sample` and `secrets` draws are parameters: sequences of draws in the documented ranges.
- SHA-256 hashing of messages and the string encodings are not modelled. The hash is a natural-number parameter.
- Printing and the `main`/`happy_path` drivers are left out, apart from the facts their output states. Both demo headers (pedersen_commitment_scheme.py:154 and :186) print q where they mean p; the model does not reproduce this.
- Hiding and secrecy claims (a commitment reveals nothing, fewer than threshold shares reveal nothing) are information-theoretic or computational. They are not stated.
- `ecdsa.py`, `schnorr.py`, `musig.py` and `iot_temperature_average_mpc.py` are not part of this model.
- Exponents handed to `pow` by callers are restricted to natural numbers. This covers `share_i` in `verify_share`, s and t in `pedersen_commit` and in `commit`/`verify`, the message in `encrypt`, and the constants of `homomorphic_add_constant` and `homomorphic_multiply_constant`. Python 3.8+ evaluates a negative exponent through the modular inverse of the base, or raises `ValueError` when the base is not invertible. The model does not state that behaviour. For example, a share given as f(i) - q passes `verify_share` in Python. Only the explicit `pow(x, -1, m)` calls are modelled, as `ModInverse`.
- Paillier.GenerateKeypair and Paillier.Encrypt model the unbounded retry loops as scans over a finite sequence of draws. They require that one draw qualifies.
- Rsa.KeyFrom requires p, q > 1, and Paillier.Decrypt requires n > 0. Both are things the key generation always provides.
- Rsa.SignThenVerify and the Paillier round-trip lemmas assume p != q. The source does not exclude equal primes in RSA. For p = q the stated (p-1)(q-1) is not Euler's phi.
- ConsortiumKeys.ConsortiumKeyManager.SignMessage promises `VerifySignature` only for threshold >= 1. With threshold <= 0 the source signs with an empty share list, which `Polynomial.interpolate` turns into the zero polynomial.
- `verify_signature` compares against `master_secret` exactly as written. The manager's invariant keeps that value equal to the secret polynomial's constant term.
- Pvss.Inverse returns 0 for a value divisible by q, as Fermat's `x^(q-2)` does (lemma `InverseOfZero`). The source does not raise there.
- Python's integers are unbounded, like Dafny's, so no wrap-around is involved.
- ThresholdPedersen.ReconstructSecret requires at least as many s- and t-shares as indices. With shorter share lists the source raises `IndexError` when it reads `shares_s[i_idx]` or `shares_t[i_idx]`, and that error path is not modelled.
- ThresholdPedersen.Dealer.Distribute returns the printed coefficient commitments as a value instead of printing them.

## Findings

| source | as written | input that shows it | evidently intended | confidence | as-written member | corrected member |
|---|---|---|---|---|---|---|
| pedersen_commitment_scheme.py:105-134 | `commit` and `verify` reduce `g^s`, `h^t` and their product modulo `q`, although the docstrings say modulo `p` | p=23, q=11, g=2, h=4, s=3, t=1 gives c = 10, not the documented 9 (line 44); (s, t) = (3, 5) gives 8, not the documented 4 (line 50); the forged opening for s' = 0 (t' = 1) is rejected | reduce modulo `p`, so that g of order q makes exponents work modulo q and the documented values and the binding attack come out | not executed | `PedersenCommitmentScheme.DemoAsWritten` | `PedersenCommitmentScheme.DemoAttackModP` |
