/** Shamir secret sharing with a trusted dealer (Appendix C of RFC 9591):
    `shamir_split` evaluates a polynomial of t coefficients, whose constant
    term is the secret, at x = 1..n; `shamir_reconstruct` interpolates the
    shares at x = 0. */
module Shamir {
  import opened Wrappers
  import opened Field
  import opened Polynomial
  import opened Lagrange

  datatype ShamirShare = ShamirShare(index: Usize, secret: Scalar)

  /** A stream of random scalars: draws(k) is the k-th value drawn.  The
      generator `shamir_split` uses (`test_rng`) is a parameter of the model. */
  type Draws = nat -> Scalar

  /** The coefficients `shamir_split` builds: the secret, then t - 1 draws. */
  function Coefficients(secret: Scalar, t: nat, draws: Draws): (c: seq<Scalar>)
    requires t >= 1
    ensures |c| == t && c[0] == secret
    ensures forall k :: 1 <= k < t ==> c[k] == draws(k - 1)
  {
    [secret] + seq(t - 1, k requires 0 <= k < t - 1 => draws(k))
  }

  /** `shamir_split(secret, t, n)`: fails unless 2 <= t <= n, checking t <= n
      first; otherwise share i (from 1) holds the value at i of the polynomial
      with the `Coefficients`. */
  function Split(secret: Scalar, t: Usize, n: Usize, draws: Draws): (r: Result<seq<ShamirShare>>)
    ensures r.Ok? <==> 2 <= t <= n
    ensures t > n ==> r == Err(ThresholdExceedsShares)
    ensures t <= n && t < 2 ==> r == Err(ThresholdBelowTwo)
    ensures r.Ok? ==> |r.value| == n && forall i :: 0 <= i < n ==> r.value[i].index == i + 1
    ensures r.Ok? ==> forall i :: 0 <= i < n ==>
      r.value[i].secret == Eval(Coefficients(secret, t, draws), r.value[i].index)
  {
    if t > n then Err(ThresholdExceedsShares)
    else if t < 2 then Err(ThresholdBelowTwo)
    else
      var c := Coefficients(secret, t, draws);
      Ok(seq(n, i requires 0 <= i < n => ShamirShare(i + 1, Eval(c, i + 1))))
  }

  /** The shares of a split lie on one polynomial of exactly t coefficients
      whose value at 0 is the secret. */
  lemma SplitSharesOnPolynomial(secret: Scalar, t: Usize, n: Usize, draws: Draws)
    requires Split(secret, t, n, draws).Ok?
    ensures var shares := Split(secret, t, n, draws).value;
      exists c: seq<Scalar> :: |c| == t && Eval(c, 0) == secret
        && forall i :: 0 <= i < |shares| ==> shares[i].secret == Eval(c, shares[i].index)
  {
    var c := Coefficients(secret, t, draws);
    EvalAtZero(c);
  }

  function Indices(shares: seq<ShamirShare>): (xs: seq<Scalar>)
    ensures |xs| == |shares| && forall i :: 0 <= i < |shares| ==> xs[i] == shares[i].index
  {
    seq(|shares|, i requires 0 <= i < |shares| => shares[i].index as Scalar)
  }

  function Values(shares: seq<ShamirShare>): (ys: seq<Scalar>)
    ensures |ys| == |shares| && forall i :: 0 <= i < |shares| ==> ys[i] == shares[i].secret
  {
    seq(|shares|, i requires 0 <= i < |shares| => shares[i].secret)
  }

  /** `numerator * denominator.inverse().unwrap()` for share i: the products
      of (0 - x_j) and (x_i - x_j) over the other positions j, in order. */
  function LagrangeCoefficient(xs: seq<Scalar>, i: nat): (r: Result<Scalar>)
    requires i < |xs|
    ensures r.Ok? <==> Invertible(ProdDiff(xs[i], xs, i))
    ensures r.Ok? ==> r.value == Basis(xs, i)
    ensures r.Err? ==> r.error == NotInvertible
  {
    match Inverse(ProdDiff(xs[i], xs, i))
    case None => Err(NotInvertible)
    case Some(inv) => Ok(Mul(ProdDiff(0, xs, i), inv))
  }

  /** Every share's denominator has an inverse. */
  ghost predicate DenominatorsInvertible(xs: seq<Scalar>, m: nat)
    requires m <= |xs|
  {
    forall i :: 0 <= i < m ==> Invertible(ProdDiff(xs[i], xs, i))
  }

  /** The loop of `shamir_reconstruct` after its first m iterations. */
  function ReconstructPrefix(xs: seq<Scalar>, ys: seq<Scalar>, m: nat): (r: Result<Scalar>)
    requires |xs| == |ys| && m <= |xs|
    ensures r.Ok? <==> DenominatorsInvertible(xs, m)
    ensures r.Ok? ==> r.value == Weighted(ys, Bases(xs), m)
    ensures r.Err? ==> r.error == NotInvertible
  {
    if m == 0 then Ok(0)
    else
      var acc :- ReconstructPrefix(xs, ys, m - 1);
      var coeff :- LagrangeCoefficient(xs, m - 1);
      Ok(Add(acc, Mul(ys[m - 1], coeff)))
  }

  /** `shamir_reconstruct`: Σ_i y_i * L_i(0).  It fails (the `unwrap` panics)
      exactly when some denominator has no inverse; otherwise its value is the
      Lagrange combination of the shares. */
  function Reconstruct(shares: seq<ShamirShare>): (r: Result<Scalar>)
    ensures r.Ok? <==> DenominatorsInvertible(Indices(shares), |shares|)
    ensures r.Ok? ==> r.value == Combine(Indices(shares), Values(shares))
    ensures r.Err? ==> r == Err(NotInvertible)
  {
    ReconstructPrefix(Indices(shares), Values(shares), |shares|)
  }

  /** The empty list reconstructs to 0 and one share to its own value: the
      empty products are 1. */
  lemma ReconstructTrivial(s: ShamirShare)
    ensures Reconstruct([]) == Ok(0)
    ensures Reconstruct([s]) == Ok(s.secret)
  {
    var xs := Indices([s]);
    assert xs[..0] == [];
    assert ProdDiff(0, xs, 0) == ProdDiff(0, [], 0) == 1;
    assert ProdDiff(xs[0], xs, 0) == ProdDiff(xs[0], [], 0) == 1;
    InverseUnique(1, 1);
    MulOne(1);
    MulOne(s.secret);
  }

  /** A product with a zero factor is zero. */
  lemma {:induction false} ProdDiffZero(p: Scalar, xs: seq<Scalar>, skip: int, j: nat)
    requires j < |xs| && j != skip && xs[j] == p
    ensures ProdDiff(p, xs, skip) == 0
    decreases |xs|
  {
    var n := |xs|;
    if j < n - 1 {
      ProdDiffZero(p, xs[..n - 1], skip, j);
    }
  }

  lemma ZeroNotInvertible()
    ensures !Invertible(0)
  {
  }

  /** Two shares with the same index make `shamir_reconstruct` fail: the
      denominator of either contains the factor x_i - x_j = 0. */
  lemma ReconstructDuplicateIndex(shares: seq<ShamirShare>, i: nat, j: nat)
    requires i < |shares| && j < |shares| && i != j
    requires shares[i].index == shares[j].index
    ensures Reconstruct(shares) == Err(NotInvertible)
  {
    var xs := Indices(shares);
    ProdDiffZero(xs[i], xs, i, j);
    ZeroNotInvertible();
  }

  predicate DistinctIndices(shares: seq<ShamirShare>) {
    forall i, j :: 0 <= i < j < |shares| ==> shares[i].index != shares[j].index
  }

  /** Over shares whose index differences are units, reconstruction succeeds. */
  lemma ReconstructOk(shares: seq<ShamirShare>)
    requires UnitDiffs(Indices(shares))
    ensures Reconstruct(shares).Ok?
  {
    var xs := Indices(shares);
    forall i | 0 <= i < |xs|
      ensures Invertible(ProdDiff(xs[i], xs, i))
    {
      ProdDiffInvertible(xs[i], xs, i);
    }
  }

  /** In the prime field, `shamir_reconstruct` succeeds exactly when the
      indices are distinct. */
  lemma ReconstructOkIffDistinct(shares: seq<ShamirShare>)
    requires PrimeModulus()
    ensures Reconstruct(shares).Ok? <==> DistinctIndices(shares)
  {
    var xs := Indices(shares);
    if DistinctIndices(shares) {
      DistinctUnitDiffs(xs);
      ReconstructOk(shares);
    } else {
      var i, j :| 0 <= i < j < |shares| && shares[i].index == shares[j].index;
      ReconstructDuplicateIndex(shares, i, j);
    }
  }

  /** Any t or more shares of one split, with unit index differences, give
      the secret back. */
  lemma ReconstructRecoversSecret(secret: Scalar, t: Usize, n: Usize, draws: Draws,
                                  shares: seq<ShamirShare>)
    requires Split(secret, t, n, draws).Ok?
    requires forall k :: 0 <= k < |shares| ==> shares[k] in Split(secret, t, n, draws).value
    requires |shares| >= t
    requires UnitDiffs(Indices(shares))
    ensures Reconstruct(shares) == Ok(secret)
  {
    var all := Split(secret, t, n, draws).value;
    var c := Coefficients(secret, t, draws);
    var xs, ys := Indices(shares), Values(shares);
    forall k | 0 <= k < |shares|
      ensures ys[k] == Eval(c, xs[k])
    {
      var i :| 0 <= i < |all| && all[i] == shares[k];
    }
    ReconstructOk(shares);
    Interpolation(xs, ys, c);
    EvalAtZero(c);
  }

  /** In the prime field, distinct indices suffice. */
  lemma ReconstructRecoversSecretPrime(secret: Scalar, t: Usize, n: Usize, draws: Draws,
                                       shares: seq<ShamirShare>)
    requires PrimeModulus()
    requires Split(secret, t, n, draws).Ok?
    requires forall k :: 0 <= k < |shares| ==> shares[k] in Split(secret, t, n, draws).value
    requires |shares| >= t && DistinctIndices(shares)
    ensures Reconstruct(shares) == Ok(secret)
  {
    DistinctUnitDiffs(Indices(shares));
    ReconstructRecoversSecret(secret, t, n, draws, shares);
  }

  /** The unit differences of the indices 1, 2, 3, shown by explicit inverses:
      2 * (L + 1) / 2 = 1 and (L - 2) * (L - 1) / 2 = 1 modulo L. */
  lemma FirstThreeIndicesUnitDiffs()
    ensures UnitDiffs([1, 2, 3])
  {
    var xs: seq<Scalar> := [1, 2, 3];
    assert Mul(1, 1) == 1;
    assert Mul(2, (L + 1) / 2) == 1;
    assert Mul(L - 1, L - 1) == 1;
    assert Mul(L - 2, (L - 1) / 2) == 1;
    forall i, j | 0 <= i < 3 && 0 <= j < 3 && i != j
      ensures Invertible(Sub(xs[i], xs[j]))
    {
      var d := Sub(xs[i], xs[j]);
      assert d == 1 || d == 2 || d == L - 1 || d == L - 2;
    }
  }

  /** `test_shamir_split_reconstruct`: splitting 42 with t = 3, n = 5 gives five
      shares, and the first three reconstruct 42, whatever the draws. */
  lemma ShamirTestVector(draws: Draws)
    ensures Split(42, 3, 5, draws).Ok?
    ensures |Split(42, 3, 5, draws).value| == 5
    ensures Reconstruct(Split(42, 3, 5, draws).value[..3]) == Ok(42)
  {
    var all := Split(42, 3, 5, draws).value;
    var shares := all[..3];
    assert Indices(shares) == [1, 2, 3];
    FirstThreeIndicesUnitDiffs();
    forall k | 0 <= k < 3
      ensures shares[k] in all
    {
      assert shares[k] == all[k];
    }
    ReconstructRecoversSecret(42, 3, 5, draws, shares);
  }
}
