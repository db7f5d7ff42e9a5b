/** The `Polynomial` helper of the consortium key manager: coefficient lists
    over Z_prime, constant term first, with evaluation, the three list
    operations and symbolic Lagrange interpolation. */
module Polynomials {
  import opened ModArith
  import opened Primes
  import opened PolyMath
  import opened Outcomes

  /** A coefficient list together with the prime it is taken modulo. */
  datatype Polynomial = Polynomial(coefficients: seq<int>, prime: int)

  /** Coefficient-wise reduction modulo p. */
  function Reduce(c: seq<int>, p: int): (r: seq<int>)
    requires p > 0
    ensures |r| == |c| && forall i :: 0 <= i < |r| ==> 0 <= r[i] < p
  {
    seq(|c|, i requires 0 <= i < |c| => c[i] % p)
  }

  lemma ReduceEval(c: seq<int>, x: int, p: int)
    requires p > 0
    ensures Eval(Reduce(c, p), x, p) == Eval(c, x, p)
  {
    PolyValueCongruent(Reduce(c, p), c, x, p);
  }

  // ---------------------------------------------------------------------
  // evaluate

  /** The accumulator loop of `evaluate`: running sum and running power of
      x, both reduced modulo the prime at every step. */
  method Evaluate(poly: Polynomial, x: int) returns (r: int)
    requires poly.prime > 0
    ensures r == Eval(poly.coefficients, x, poly.prime)
  {
    var c, p := poly.coefficients, poly.prime;
    var result, power := 0, 1;
    for i := 0 to |c|
      invariant result == Eval(c[..i], x, p)
      invariant power % p == Pow(x, i) % p
    {
      EvalLoopStep(c, i, x, p, result, power);
      result := (result + c[i] * power) % p;
      power := (power * x) % p;
    }
    assert c[..|c|] == c;
    r := result;
  }

  // ---------------------------------------------------------------------
  // multiply_terms

  /** Coefficient k of a * b restricted to the first i rows of the schoolbook
      product: the sum of a[i'] * b[k - i'] over i' < i. */
  function RowSum(a: seq<int>, b: seq<int>, i: nat, k: int): int
    requires i <= |a|
  {
    if i == 0 then 0 else RowSum(a, b, i - 1, k) + a[i - 1] * Coef(b, k - (i - 1))
  }

  /** RowSum(a, b, i, k) plus the part of row i placed by the inner loop
      after j steps. */
  function Partial(a: seq<int>, b: seq<int>, i: nat, j: nat, k: int): int
    requires i < |a| && j <= |b|
  {
    RowSum(a, b, i, k) + (if i <= k < i + j then a[i] * b[k - i] else 0)
  }

  lemma PartialStep(a: seq<int>, b: seq<int>, i: nat, j: nat)
    requires i < |a| && j < |b|
    ensures forall k :: k != i + j ==> Partial(a, b, i, j + 1, k) == Partial(a, b, i, j, k)
    ensures Partial(a, b, i, j + 1, i + j) == Partial(a, b, i, j, i + j) + a[i] * b[j]
  {
  }

  lemma PartialEnds(a: seq<int>, b: seq<int>, i: nat)
    requires i < |a|
    ensures forall k :: Partial(a, b, i, 0, k) == RowSum(a, b, i, k)
    ensures forall k :: Partial(a, b, i, |b|, k) == RowSum(a, b, i + 1, k)
  {
  }

  /** The integer coefficient list of the product restricted to i rows. */
  function Rows(a: seq<int>, b: seq<int>, i: nat, len: nat): (r: seq<int>)
    requires i <= |a|
    ensures |r| == len
  {
    seq(len, k => RowSum(a, b, i, k))
  }

  /** The length of `multiply_terms`' result: len(p1) + len(p2) - 1, and
      empty when both are empty (Python's `[0] * -1` is `[]`). */
  function ProductLength(a: seq<int>, b: seq<int>): nat
  {
    if |a| + |b| == 0 then 0 else |a| + |b| - 1
  }

  /** The product of a and b with every coefficient reduced modulo p. */
  function MulSpec(a: seq<int>, b: seq<int>, p: int): (r: seq<int>)
    requires p > 0
    ensures |r| == ProductLength(a, b)
  {
    Reduce(Rows(a, b, |a|, ProductLength(a, b)), p)
  }

  /** `multiply_terms`: the schoolbook double loop accumulating a[i] * b[j]
      into result[i + j] in place. */
  method MultiplyTerms(p1: seq<int>, p2: seq<int>, prime: int) returns (r: seq<int>)
    requires prime > 0
    ensures r == MulSpec(p1, p2, prime)
  {
    var len := ProductLength(p1, p2);
    var result := new int[len](_ => 0);
    for i := 0 to |p1|
      invariant forall k :: 0 <= k < len ==> result[k] == RowSum(p1, p2, i, k) % prime
    {
      PartialEnds(p1, p2, i);
      for j := 0 to |p2|
        invariant forall k :: 0 <= k < len ==> result[k] == Partial(p1, p2, i, j, k) % prime
      {
        PartialStep(p1, p2, i, j);
        ModAddLeft(Partial(p1, p2, i, j, i + j), p1[i] * p2[j], prime);
        result[i + j] := (result[i + j] + p1[i] * p2[j]) % prime;
      }
    }
    r := result[..];
  }

  /** The rows of the product add up to a[..i](x) * b(x). */
  lemma {:induction false} RowsValue(a: seq<int>, b: seq<int>, i: nat, len: nat, x: int)
    requires i <= |a| && (i == 0 || i - 1 + |b| <= len)
    ensures PolyValue(Rows(a, b, i, len), x) == PolyValue(a[..i], x) * PolyValue(b, x)
    decreases i
  {
    if i == 0 {
      assert Rows(a, b, 0, len) == [] + Zeros(len);
      PolyValueZerosRight([], len, x);
    } else {
      var row := Zeros(i - 1) + Scale(b, a[i - 1]);
      var pad := row + Zeros(len - |row|);
      assert Rows(a, b, i, len) == PadAdd(Rows(a, b, i - 1, len), pad) by {
        forall k | 0 <= k < len
          ensures Rows(a, b, i, len)[k] == PadAdd(Rows(a, b, i - 1, len), pad)[k]
        {
          assert Coef(pad, k) == a[i - 1] * Coef(b, k - (i - 1));
        }
      }
      RowsValue(a, b, i - 1, len, x);
      PolyValuePadAdd(Rows(a, b, i - 1, len), pad, x);
      PolyValueZerosRight(row, len - |row|, x);
      PolyValueZerosLeft(Scale(b, a[i - 1]), i - 1, x);
      PolyValueScale(b, a[i - 1], x);
      PolyValuePrefix(a, i - 1, x);
      var u, w, v := PolyValue(a[..i - 1], x), Pow(x, i - 1), PolyValue(b, x);
      assert a[..i][..i - 1] == a[..i - 1];
      MulSwap(w, a[i - 1], v);
      Distrib(v, u, a[i - 1] * w);
      assert (a[i - 1] * w) * v == w * (a[i - 1] * v) by { MulSwap(a[i - 1], w, v); }
    }
  }

  /** Evaluating the product gives the product of the evaluations. */
  lemma MulSpecEval(a: seq<int>, b: seq<int>, x: int, p: int)
    requires p > 0
    ensures Eval(MulSpec(a, b, p), x, p) == (Eval(a, x, p) * Eval(b, x, p)) % p
    ensures |MulSpec(a, b, p)| == ProductLength(a, b)
  {
    var len := ProductLength(a, b);
    ReduceEval(Rows(a, b, |a|, len), x, p);
    RowsValue(a, b, |a|, len, x);
    assert a[..|a|] == a;
    ModMul(PolyValue(a, x), PolyValue(b, x), p);
  }

  // ---------------------------------------------------------------------
  // scalar_multiply

  /** `scalar_multiply`: every coefficient times the scalar, modulo p. */
  function ScalarMultiply(poly: seq<int>, scalar: int, prime: int): (r: seq<int>)
    requires prime > 0
    ensures |r| == |poly| && forall i :: 0 <= i < |r| ==> 0 <= r[i] < prime
  {
    seq(|poly|, i requires 0 <= i < |poly| => (poly[i] * scalar) % prime)
  }

  lemma ScalarMultiplyEval(c: seq<int>, s: int, x: int, p: int)
    requires p > 0
    ensures Eval(ScalarMultiply(c, s, p), x, p) == (s * Eval(c, x, p)) % p
  {
    assert ScalarMultiply(c, s, p) == Reduce(Scale(c, s), p) by {
      forall i | 0 <= i < |c| ensures c[i] * s == s * c[i] { }
    }
    ReduceEval(Scale(c, s), x, p);
    PolyValueScale(c, s, x);
    ModMulRight(s, PolyValue(c, x), p);
  }

  // ---------------------------------------------------------------------
  // add_polynomials

  /** The zero-padded coefficient-wise sum modulo p. */
  function AddSpec(a: seq<int>, b: seq<int>, p: int): (r: seq<int>)
    requires p > 0
    ensures |r| == Max(|a|, |b|) && forall i :: 0 <= i < |r| ==> 0 <= r[i] < p
  {
    Reduce(PadAdd(a, b), p)
  }

  /** `add_polynomials`: the append loop over range(max_len). */
  method AddPolynomials(p1: seq<int>, p2: seq<int>, prime: int) returns (r: seq<int>)
    requires prime > 0
    ensures r == AddSpec(p1, p2, prime)
  {
    var maxLen := if |p1| < |p2| then |p2| else |p1|;
    var result := [];
    for i := 0 to maxLen
      invariant result == AddSpec(p1, p2, prime)[..i]
    {
      var a := if i < |p1| then p1[i] else 0;
      var b := if i < |p2| then p2[i] else 0;
      result := result + [(a + b) % prime];
    }
    r := result;
  }

  lemma AddSpecEval(a: seq<int>, b: seq<int>, x: int, p: int)
    requires p > 0
    ensures Eval(AddSpec(a, b, p), x, p) == (Eval(a, x, p) + Eval(b, x, p)) % p
  {
    ReduceEval(PadAdd(a, b), x, p);
    PolyValuePadAdd(a, b, x);
    ModAdd(PolyValue(a, x), PolyValue(b, x), p);
  }

  // ---------------------------------------------------------------------
  // interpolate

  /** The x coordinates of the points. */
  function Xs(points: seq<(int, int)>): (r: seq<int>)
    ensures |r| == |points| && forall i :: 0 <= i < |r| ==> r[i] == points[i].0
  {
    seq(|points|, i requires 0 <= i < |points| => points[i].0)
  }

  /** `numerator` after the inner loop has visited points[..j] for point i:
      the product of [-x_j, 1] over those j != i. */
  function Numerator(points: seq<(int, int)>, i: nat, j: nat, p: int): seq<int>
    requires p > 0 && i < |points| && j <= |points|
  {
    if j == 0 then [1]
    else if j - 1 == i then Numerator(points, i, j - 1, p)
    else MulSpec(Numerator(points, i, j - 1, p), [-points[j - 1].0, 1], p)
  }

  /** `denominator` after the inner loop has visited points[..j] for point i:
      the product of x_i - x_j over those j != i, modulo p. */
  function Denominator(points: seq<(int, int)>, i: nat, j: nat, p: int): int
    requires p > 0 && i < |points| && j <= |points|
  {
    if j == 0 then 1
    else if j - 1 == i then Denominator(points, i, j - 1, p)
    else (Denominator(points, i, j - 1, p) * (points[i].0 - points[j - 1].0)) % p
  }

  /** `scaled_numerator` for point i, or the ValueError of
      `pow(denominator, -1, prime)` when the denominator has no inverse. */
  function ScaledNumerator(points: seq<(int, int)>, i: nat, p: int): Outcome<seq<int>>
    requires p > 0 && i < |points|
  {
    match ModInverse(Denominator(points, i, |points|, p), p)
    case None => Raised(NotInvertible)
    case Some(inv) => Returned(ScalarMultiply(Numerator(points, i, |points|, p), (points[i].1 * inv) % p, p))
  }

  /** `result` after the outer loop has handled points[..s]. */
  function InterpolateUpTo(points: seq<(int, int)>, s: nat, p: int): (r: Outcome<seq<int>>)
    requires p > 0 && s <= |points|
    ensures r.Returned? ==> |r.value| >= 1 && forall i :: 0 <= i < |r.value| ==> 0 <= r.value[i] < p
  {
    if s == 0 then Returned([0])
    else match InterpolateUpTo(points, s - 1, p)
      case Raised(e) => Raised(e)
      case Returned(acc) =>
        match ScaledNumerator(points, s - 1, p)
        case Raised(e) => Raised(e)
        case Returned(t) => Returned(AddSpec(acc, t, p))
  }

  /** What `interpolate` returns or raises. */
  function InterpolateSpec(points: seq<(int, int)>, prime: int): (r: Outcome<Polynomial>)
    requires prime > 0
    ensures r.Returned? ==> r.value.prime == prime && |r.value.coefficients| >= 1
    ensures r.Returned? ==> forall i :: 0 <= i < |r.value.coefficients| ==> 0 <= r.value.coefficients[i] < prime
  {
    match InterpolateUpTo(points, |points|, prime)
    case Raised(e) => Raised(e)
    case Returned(c) => Returned(Polynomial(c, prime))
  }

  /** The inner loop of `interpolate` for point i: the basis numerator and
      denominator built over every other point. */
  method Basis(points: seq<(int, int)>, i: nat, prime: int) returns (numerator: seq<int>, denominator: int)
    requires prime > 0 && i < |points|
    ensures numerator == Numerator(points, i, |points|, prime)
    ensures denominator == Denominator(points, i, |points|, prime)
  {
    var xi := points[i].0;
    numerator := [1];
    denominator := 1;
    for j := 0 to |points|
      invariant numerator == Numerator(points, i, j, prime)
      invariant denominator == Denominator(points, i, j, prime)
    {
      if i != j {
        numerator := MultiplyTerms(numerator, [-points[j].0, 1], prime);
        denominator := (denominator * (xi - points[j].0)) % prime;
      }
    }
  }

  /** `interpolate`: for every point, the basis numerator scaled by
      y_i / denominator is added into the result; a denominator without
      inverse raises. */
  method Interpolate(points: seq<(int, int)>, prime: int) returns (r: Outcome<Polynomial>)
    requires prime > 0
    ensures r == InterpolateSpec(points, prime)
  {
    var result := [0];
    for i := 0 to |points|
      invariant InterpolateUpTo(points, i, prime) == Returned(result)
    {
      var numerator, denominator := Basis(points, i, prime);
      var inv := ModInverse(denominator, prime);
      OuterStep(points, i, prime, result);
      if inv.None? {
        return Raised(NotInvertible);
      }
      var scaled := ScalarMultiply(numerator, (points[i].1 * inv.value) % prime, prime);
      result := AddPolynomials(result, scaled, prime);
    }
    r := Returned(Polynomial(result, prime));
  }

  /** One round of the outer loop of `interpolate`, on the values Basis
      computes: a denominator without inverse makes the whole call raise,
      otherwise the scaled numerator is added into the result. */
  lemma OuterStep(points: seq<(int, int)>, i: nat, p: int, result: seq<int>)
    requires p > 0 && i < |points| && InterpolateUpTo(points, i, p) == Returned(result)
    ensures var inv := ModInverse(Denominator(points, i, |points|, p), p);
            (inv.None? ==> InterpolateUpTo(points, |points|, p) == Raised(NotInvertible)) &&
            (inv.Some? ==>
               InterpolateUpTo(points, i + 1, p) ==
               Returned(AddSpec(result, ScalarMultiply(Numerator(points, i, |points|, p), (points[i].1 * inv.value) % p, p), p)))
  {
    if ModInverse(Denominator(points, i, |points|, p), p).None? {
      RaisedPersists(points, i + 1, p);
    }
  }

  /** Once a denominator fails to invert, interpolation raises. */
  lemma {:induction false} RaisedPersists(points: seq<(int, int)>, s: nat, p: int)
    requires p > 0 && s <= |points| && InterpolateUpTo(points, s, p).Raised?
    ensures InterpolateUpTo(points, |points|, p) == Raised(NotInvertible)
    decreases |points| - s
  {
    RaisedIsNotInvertible(points, s, p);
    if s < |points| {
      RaisedPersists(points, s + 1, p);
    }
  }

  lemma {:induction false} RaisedIsNotInvertible(points: seq<(int, int)>, s: nat, p: int)
    requires p > 0 && s <= |points|
    ensures InterpolateUpTo(points, s, p).Raised? ==> InterpolateUpTo(points, s, p).error == NotInvertible
    decreases s
  {
    if s > 0 {
      RaisedIsNotInvertible(points, s - 1, p);
    }
  }

  // ---------------------------------------------------------------------
  // What interpolation computes

  /** The integer product of (x - x_j) over j < jEnd, j != i. */
  function BasisProduct(points: seq<(int, int)>, i: nat, jEnd: nat, x: int): int
    requires i < |points| && jEnd <= |points|
  {
    if jEnd == 0 then 1
    else if jEnd - 1 == i then BasisProduct(points, i, jEnd - 1, x)
    else BasisProduct(points, i, jEnd - 1, x) * (x - points[jEnd - 1].0)
  }

  lemma {:induction false} NumeratorLength(points: seq<(int, int)>, i: nat, j: nat, p: int)
    requires p > 0 && i < |points| && j <= |points|
    ensures |Numerator(points, i, j, p)| == if j <= i then j + 1 else j
    decreases j
  {
    if j > 0 {
      NumeratorLength(points, i, j - 1, p);
    }
  }

  lemma {:induction false} NumeratorEval(points: seq<(int, int)>, i: nat, j: nat, x: int, p: int)
    requires p > 0 && i < |points| && j <= |points|
    ensures Eval(Numerator(points, i, j, p), x, p) == BasisProduct(points, i, j, x) % p
    decreases j
  {
    if j == 0 {
      assert PolyValue([1], x) == 1 + x * PolyValue([], x);
    } else {
      NumeratorEval(points, i, j - 1, x, p);
      NumeratorStep(points, i, j, x, p);
    }
  }

  /** One factor of the numerator: if the claim holds for points[..j-1] it
      holds for points[..j]. */
  lemma NumeratorStep(points: seq<(int, int)>, i: nat, j: nat, x: int, p: int)
    requires p > 0 && i < |points| && 0 < j <= |points|
    requires Eval(Numerator(points, i, j - 1, p), x, p) == BasisProduct(points, i, j - 1, x) % p
    ensures Eval(Numerator(points, i, j, p), x, p) == BasisProduct(points, i, j, x) % p
  {
    if j - 1 != i {
      var n, b, xj := Numerator(points, i, j - 1, p), BasisProduct(points, i, j - 1, x), points[j - 1].0;
      assert Numerator(points, i, j, p) == MulSpec(n, [-xj, 1], p);
      assert BasisProduct(points, i, j, x) == b * (x - xj);
      LinearFactorEval(n, b, xj, x, p);
    }
  }

  /** Multiplying by the factor [-xj, 1] multiplies the value by x - xj. */
  lemma LinearFactorEval(n: seq<int>, b: int, xj: int, x: int, p: int)
    requires p > 0 && Eval(n, x, p) == b % p
    ensures Eval(MulSpec(n, [-xj, 1], p), x, p) == (b * (x - xj)) % p
  {
    MulSpecEval(n, [-xj, 1], x, p);
    assert PolyValue([-xj, 1], x) == x - xj by {
      assert [-xj, 1][1..] == [1];
      assert PolyValue([1], x) == 1 + x * PolyValue([], x);
    }
    ModMul(b, x - xj, p);
    ModMul(PolyValue(n, x), x - xj, p);
  }

  lemma {:induction false} DenominatorIsBasisProduct(points: seq<(int, int)>, i: nat, j: nat, p: int)
    requires p > 0 && i < |points| && j <= |points|
    ensures Denominator(points, i, j, p) % p == BasisProduct(points, i, j, points[i].0) % p
    decreases j
  {
    if j > 0 {
      DenominatorIsBasisProduct(points, i, j - 1, p);
      if j - 1 != i {
        var d := Denominator(points, i, j - 1, p);
        var b := BasisProduct(points, i, j - 1, points[i].0);
        var f := points[i].0 - points[j - 1].0;
        ModMod(d * f, p);
        ModMulCongruent(d, b, f, p);
      }
    }
  }

  /** The basis product for point i vanishes at every other point it covers. */
  lemma {:induction false} BasisProductVanishes(points: seq<(int, int)>, i: nat, j: nat, m: nat)
    requires i < |points| && j <= |points| && m < j && m != i
    ensures BasisProduct(points, i, j, points[m].0) == 0
    decreases j
  {
    if m < j - 1 {
      BasisProductVanishes(points, i, j - 1, m);
    }
  }

  /** a - b vanishes modulo p exactly when a and b agree modulo p. */
  lemma DifferenceZeroIff(a: int, b: int, p: int)
    requires p > 0
    ensures (a - b) % p == 0 <==> a % p == b % p
  {
    ModSub(a, b, p);
    if (a - b) % p == 0 {
      SameResidue(a, b, p);
    }
  }

  /** Modulo a prime, the basis product at x_i is non-zero exactly when x_i
      differs from every other covered x_j. */
  lemma {:induction false} BasisProductNonZero(points: seq<(int, int)>, i: nat, j: nat, p: int)
    requires IsPrime(p) && i < |points| && j <= |points|
    ensures BasisProduct(points, i, j, points[i].0) % p != 0 <==>
            forall m :: 0 <= m < j && m != i ==> points[i].0 % p != points[m].0 % p
    decreases j
  {
    var xi := points[i].0;
    if j == 0 {
      ModSmall(1, p);
    } else {
      BasisProductNonZero(points, i, j - 1, p);
      if j - 1 != i {
        var b := BasisProduct(points, i, j - 1, xi);
        var f := xi - points[j - 1].0;
        DifferenceZeroIff(xi, points[j - 1].0, p);
        if b % p != 0 && f % p != 0 {
          PrimeProductNonZero(p, b, f);
        } else if b % p == 0 {
          ModZeroFactor(b, f, p);
        } else {
          ModZeroFactor(f, b, p);
          assert f * b == b * f;
        }
      }
    }
  }

  /** The denominator of point i is invertible exactly when x_i differs
      from every other x modulo the prime. */
  lemma DenominatorInvertibleIff(points: seq<(int, int)>, i: nat, p: int)
    requires IsPrime(p) && i < |points|
    ensures ModInverse(Denominator(points, i, |points|, p), p).Some? <==>
            forall m :: 0 <= m < |points| && m != i ==> points[i].0 % p != points[m].0 % p
  {
    PrimeInvertible(p, Denominator(points, i, |points|, p));
    DenominatorIsBasisProduct(points, i, |points|, p);
    BasisProductNonZero(points, i, |points|, p);
  }

  /** The scaled numerator of point i is y_i at x_i and 0 at every other x. */
  lemma ScaledNumeratorEval(points: seq<(int, int)>, i: nat, m: nat, p: int)
    requires p > 0 && i < |points| && m < |points| && ScaledNumerator(points, i, p).Returned?
    ensures Eval(ScaledNumerator(points, i, p).value, points[m].0, p) ==
            if m == i then points[i].1 % p else 0
  {
    var k := |points|;
    var n := Numerator(points, i, k, p);
    var d := Denominator(points, i, k, p);
    var inv := ModInverse(d, p).value;
    var y := points[i].1;
    var sc := (y * inv) % p;
    ScalarMultiplyEval(n, sc, points[m].0, p);
    NumeratorEval(points, i, k, points[m].0, p);
    if m == i {
      DenominatorIsBasisProduct(points, i, k, p);
      // sc * d == y * (inv * d) == y  (mod p)
      ModMulLeft(y * inv, d, p);
      ModMulRight(sc, d, p);
      MulSwap(y, inv, d);
      assert (inv * d) % p == 1 % p by { assert inv * d == d * inv; }
      ModMulRight(y, inv * d, p);
      ModMulRight(y, 1, p);
    } else {
      BasisProductVanishes(points, i, k, m);
      ModSmall(0, p);
    }
  }

  /** After s points the accumulated result has one coefficient at the
      start and as many as there are points afterwards. */
  lemma {:induction false} InterpolateUpToLength(points: seq<(int, int)>, s: nat, p: int)
    requires p > 0 && s <= |points| && InterpolateUpTo(points, s, p).Returned?
    ensures |InterpolateUpTo(points, s, p).value| == if s == 0 then 1 else |points|
    decreases s
  {
    if s > 0 {
      InterpolateUpToLength(points, s - 1, p);
      NumeratorLength(points, s - 1, |points|, p);
      var prev := InterpolateUpTo(points, s - 1, p).value;
      var t := ScaledNumerator(points, s - 1, p).value;
      assert InterpolateUpTo(points, s, p).value == AddSpec(prev, t, p);
    }
  }

  /** After s points the accumulated result takes the value y_m at x_m
      when m < s and 0 at the remaining points. */
  lemma {:induction false} InterpolateUpToEval(points: seq<(int, int)>, s: nat, m: nat, p: int)
    requires p > 0 && s <= |points| && m < |points| && InterpolateUpTo(points, s, p).Returned?
    ensures Eval(InterpolateUpTo(points, s, p).value, points[m].0, p) == if m < s then points[m].1 % p else 0
    decreases s
  {
    if s == 0 {
      ZeroPolynomialEval(points[m].0, p);
    } else {
      InterpolateUpToEval(points, s - 1, m, p);
      UpToStepEval(points, s, m, p);
    }
  }

  lemma ZeroPolynomialEval(x: int, p: int)
    requires p > 0
    ensures Eval([0], x, p) == 0
  {
    assert PolyValue([0], x) == 0 + x * PolyValue([], x);
  }

  lemma UpToStepEval(points: seq<(int, int)>, s: nat, m: nat, p: int)
    requires p > 0 && 0 < s <= |points| && m < |points| && InterpolateUpTo(points, s, p).Returned?
    requires Eval(InterpolateUpTo(points, s - 1, p).value, points[m].0, p) == if m < s - 1 then points[m].1 % p else 0
    ensures Eval(InterpolateUpTo(points, s, p).value, points[m].0, p) == if m < s then points[m].1 % p else 0
  {
    var prev := InterpolateUpTo(points, s - 1, p).value;
    var t := ScaledNumerator(points, s - 1, p).value;
    assert InterpolateUpTo(points, s, p).value == AddSpec(prev, t, p);
    ScaledNumeratorEval(points, s - 1, m, p);
    AccumulateStep(prev, t, points[m].0, points[m].1, p, m < s - 1, m == s - 1);
  }

  lemma AccumulateStep(prev: seq<int>, t: seq<int>, x: int, y: int, p: int, before: bool, here: bool)
    requires p > 0 && !(before && here)
    requires Eval(prev, x, p) == if before then y % p else 0
    requires Eval(t, x, p) == if here then y % p else 0
    ensures Eval(AddSpec(prev, t, p), x, p) == if before || here then y % p else 0
  {
    AddSpecEval(prev, t, x, p);
    ModMod(y, p);
    ModSmall(0, p);
  }

  /** `interpolate` succeeds exactly when the x coordinates are pairwise
      distinct modulo the prime; otherwise some denominator is 0 and
      `pow(0, -1, prime)` raises. */
  lemma InterpolateSucceedsIff(points: seq<(int, int)>, prime: int)
    requires IsPrime(prime)
    ensures InterpolateSpec(points, prime).Returned? <==> DistinctMod(Xs(points), prime)
    ensures InterpolateSpec(points, prime).Raised? ==> InterpolateSpec(points, prime).error == NotInvertible
  {
    UpToSucceedsIff(points, |points|, prime);
    RaisedIsNotInvertible(points, |points|, prime);
    var xs := Xs(points);
    if DistinctMod(xs, prime) {
      forall i, m | 0 <= i < |points| && 0 <= m < |points| && m != i
        ensures points[i].0 % prime != points[m].0 % prime
      {
        if i < m { assert xs[i] % prime != xs[m] % prime; }
        else { assert xs[m] % prime != xs[i] % prime; }
      }
    }
  }

  lemma {:induction false} UpToSucceedsIff(points: seq<(int, int)>, s: nat, p: int)
    requires IsPrime(p) && s <= |points|
    ensures InterpolateUpTo(points, s, p).Returned? <==>
            forall i, m :: 0 <= i < s && 0 <= m < |points| && m != i ==> points[i].0 % p != points[m].0 % p
    decreases s
  {
    if s > 0 {
      UpToSucceedsIff(points, s - 1, p);
      DenominatorInvertibleIff(points, s - 1, p);
    }
  }

  /** On k >= 1 points with distinct x, the interpolated polynomial has k
      coefficients and passes through every point modulo the prime. */
  lemma InterpolateHitsPoints(points: seq<(int, int)>, prime: int)
    requires IsPrime(prime) && DistinctMod(Xs(points), prime)
    ensures InterpolateSpec(points, prime).Returned?
    ensures var c := InterpolateSpec(points, prime).value.coefficients;
            |c| == Max(|points|, 1) &&
            forall i :: 0 <= i < |points| ==> Eval(c, points[i].0, prime) == points[i].1 % prime
  {
    InterpolateSucceedsIff(points, prime);
    InterpolateUpToLength(points, |points|, prime);
    forall i | 0 <= i < |points|
      ensures Eval(InterpolateSpec(points, prime).value.coefficients, points[i].0, prime) == points[i].1 % prime
    {
      InterpolateUpToEval(points, |points|, i, prime);
    }
  }

  /** Any polynomial with at most k coefficients through the same k points
      with distinct x agrees with the interpolated one everywhere modulo the
      prime: the polynomial a quorum reconstructs does not depend on which
      members form the quorum. */
  lemma InterpolateUnique(points: seq<(int, int)>, f: seq<int>, prime: int)
    requires IsPrime(prime) && DistinctMod(Xs(points), prime) && |f| <= |points|
    requires forall i :: 0 <= i < |points| ==> Eval(f, points[i].0, prime) == points[i].1 % prime
    ensures InterpolateSpec(points, prime).Returned?
    ensures forall z :: Eval(InterpolateSpec(points, prime).value.coefficients, z, prime) == Eval(f, z, prime)
  {
    InterpolateHitsPoints(points, prime);
    var c := InterpolateSpec(points, prime).value.coefficients;
    if |points| == 0 {
      forall z ensures Eval(c, z, prime) == Eval(f, z, prime) {
        assert PolyValue(c, z) == 0 + z * PolyValue([], z);
      }
    } else {
      AgreeEverywhere(c, f, Xs(points), prime);
    }
  }
}
