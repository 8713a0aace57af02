/** The signers and the coordinator: `FrostSigner` (construction with
    index-seeded nonces, `store_rho`, `sign`) and `Frost` (dealing the key,
    distributing binding factors, aggregating and verifying). */
module FrostProtocol {
  import opened Wrappers
  import opened Field
  import opened Polynomial
  import opened Bytes
  import opened Group
  import opened Shamir
  import opened Helper
  import opened Lagrange

  /** `NonceCommitment`: D = g·d and E = g·e. */
  datatype NonceCommitment = NonceCommitment(hiding: Element, binding: Element)

  /** `FrostSigner`: identifier, secret share x, hiding nonce d, binding
      nonce e, their commitments, and the binding factor rho. */
  datatype FrostSigner = FrostSigner(identifier: Scalar, x: Scalar, d: Scalar, e: Scalar,
                                     commitment: NonceCommitment, rho: Scalar)

  /** `Frost`: the generator, the signers and the group public key. */
  datatype Frost = Frost(generator: Element, signers: seq<FrostSigner>, groupPk: Element)

  /** `SchnorrSignature`: the commitment R and the response s. */
  datatype SchnorrSignature = SchnorrSignature(r: Element, s: Scalar)

  /** `StdRng::from_seed`: the deterministic stream of scalars drawn from a
      generator seeded with 32 bytes.  The generator is a parameter. */
  type SeededRng = seq<Byte> -> Draws

  // ---------------------------------------------------------------------------
  // FrostSigner::new

  /** The seed of a signer's generator: the 8 little-endian bytes of the
      index, then 24 zero bytes. */
  function Seed(index: Usize): (r: seq<Byte>)
    ensures |r| == 32 && r[..8] == LeBytes(index, 8)
    ensures forall k :: 8 <= k < 32 ==> r[k] == 0
  {
    LeBytes(index, 8) + seq(24, k => 0)
  }

  /** Distinct indices seed distinct generators, and equal indices the same one. */
  lemma SeedInjective(i: Usize, j: Usize)
    ensures Seed(i) == Seed(j) <==> i == j
  {
    assert Pow256(8) == 0x1_0000_0000_0000_0000;
    if Seed(i) == Seed(j) {
      FromLeOfLeBytes(i, 8);
      FromLeOfLeBytes(j, 8);
      assert Seed(i)[..8] == Seed(j)[..8];
    }
  }

  /** `FrostSigner::new(index, x, g, is_blind)`: d is the first draw of the
      index-seeded generator; e is the second draw, or zero for a blind
      signer; D = g·d, E = g·e; the identifier is the index and rho starts at 0. */
  function NewSigner(index: Usize, x: Scalar, g: Element, isBlind: bool, rng: SeededRng): (s: FrostSigner)
    ensures s.identifier == index && s.x == x && s.rho == 0
    ensures s.commitment == NonceCommitment(Scale(g, s.d), Scale(g, s.e))
    ensures s.d == rng(Seed(index))(0)
    ensures s.e == if isBlind then 0 else rng(Seed(index))(1)
  {
    var draws := rng(Seed(index));
    var d := draws(0);
    var e := if isBlind then 0 else draws(1);
    FrostSigner(index, x, d, e, NonceCommitment(Scale(g, d), Scale(g, e)), 0)
  }

  /** A blind signer commits to the identity as its binding nonce commitment. */
  lemma BlindCommitsIdentity(index: Usize, x: Scalar, g: Element, rng: SeededRng)
    ensures NewSigner(index, x, g, true, rng).e == 0
    ensures NewSigner(index, x, g, true, rng).commitment.binding == Identity
  {
    ScaleZero(g);
  }

  /** The nonces depend on the index alone: every signer built for the same
      index, in any session and with any share, commits to the same nonces. */
  lemma NoncesFixedByIndex(index: Usize, x1: Scalar, x2: Scalar, g: Element, isBlind: bool, rng: SeededRng)
    ensures NewSigner(index, x1, g, isBlind, rng).d == NewSigner(index, x2, g, isBlind, rng).d
    ensures NewSigner(index, x1, g, isBlind, rng).e == NewSigner(index, x2, g, isBlind, rng).e
    ensures NewSigner(index, x1, g, isBlind, rng).commitment == NewSigner(index, x2, g, isBlind, rng).commitment
  {
  }

  // ---------------------------------------------------------------------------
  // store_rho and sign

  /** `store_rho`: replaces rho, and nothing else. */
  function StoreRho(s: FrostSigner, rho: Scalar): (r: FrostSigner)
    ensures r.rho == rho
    ensures r.identifier == s.identifier && r.x == s.x && r.d == s.d && r.e == s.e
    ensures r.commitment == s.commitment
  {
    s.(rho := rho)
  }

  /** Storing twice keeps the last value; storing the current value is a no-op. */
  lemma StoreRhoLastWins(s: FrostSigner, rho1: Scalar, rho2: Scalar)
    ensures StoreRho(StoreRho(s, rho1), rho2) == StoreRho(s, rho2)
    ensures StoreRho(s, s.rho) == s
  {
  }

  /** If lambda·den == num, then (lambda·x·c)·den == num·x·c. */
  lemma ShareFraction(lambda: Scalar, x: Scalar, c: Scalar, den: Scalar, num: Scalar)
    requires Mul(lambda, den) == num
    ensures Mul(Mul(Mul(lambda, x), c), den) == Mul(Mul(num, x), c)
  {
    calc {
      Mul(Mul(Mul(lambda, x), c), den);
      { MulAssoc(lambda, x, c); }
      Mul(Mul(lambda, Mul(x, c)), den);
      { MulAssoc(lambda, Mul(x, c), den); MulComm(Mul(x, c), den); }
      Mul(lambda, Mul(den, Mul(x, c)));
      { MulAssoc(lambda, den, Mul(x, c)); }
      Mul(num, Mul(x, c));
      { MulAssoc(num, x, c); }
      Mul(Mul(num, x), c);
    }
  }

  /** `sign(challenge, x_coordinates)`: d + rho·e + lambda·x·c, with lambda
      from `derive_interpolating_value` at the signer's identifier.  Fails if
      the identifier is zero (`NonZeroScalar::new`) or the division fails.
      On success, the part of z beyond the nonces, times the denominator
      Π (x_j - x_i), is the numerator Π x_j times x·c. */
  function Sign(s: FrostSigner, c: Scalar, xs: seq<NonZeroScalar>): (r: Result<Scalar>)
    ensures r.Ok? <==> s.identifier != 0 && Invertible(OthersDiffProduct(xs, s.identifier))
    ensures s.identifier == 0 ==> r == Err(ZeroScalar)
    ensures s.identifier != 0 && r.Err? ==> r.error == NotInvertible
    ensures r.Ok? ==> Mul(Sub(r.value, Add(s.d, Mul(s.rho, s.e))), OthersDiffProduct(xs, s.identifier))
                      == Mul(Mul(OthersProduct(xs, s.identifier), s.x), c)
  {
    var id :- NewNonZeroScalar(s.identifier);
    var lambda :- DeriveInterpolatingValue(xs, id);
    var nonces, share := Add(s.d, Mul(s.rho, s.e)), Mul(Mul(lambda, s.x), c);
    assert Sub(Add(nonces, share), nonces) == share;
    ShareFraction(lambda, s.x, c, OthersDiffProduct(xs, id), OthersProduct(xs, id));
    Ok(Add(nonces, share))
  }

  /** For the k-th of identifiers with invertible differences, lambda is the
      Lagrange basis value at 0, so the share is d + rho·e + L_k(0)·x·c. */
  lemma SignAtBasis(s: FrostSigner, c: Scalar, xs: seq<NonZeroScalar>, k: nat)
    requires k < |xs| && UnitDiffs(xs) && s.identifier == xs[k]
    ensures Sign(s, c, xs) == Ok(Add(Add(s.d, Mul(s.rho, s.e)), Mul(Mul(Basis(xs, k), s.x), c)))
  {
    DeriveMatchesBasis(xs, k);
  }

  lemma ShareAlgebra(g: Element, d: Scalar, e: Scalar, rho: Scalar, lambda: Scalar, x: Scalar, c: Scalar)
    ensures Scale(g, Add(Add(d, Mul(rho, e)), Mul(Mul(lambda, x), c)))
         == Plus(Plus(Scale(g, d), Scale(Scale(g, e), rho)), Scale(Scale(g, x), Mul(lambda, c)))
  {
    ScaleAdd(g, Add(d, Mul(rho, e)), Mul(Mul(lambda, x), c));
    ScaleAdd(g, d, Mul(rho, e));
    ScaleScale(g, e, rho);
    MulComm(rho, e);
    ScaleScale(g, x, Mul(lambda, c));
    MulComm(lambda, x);
    MulAssoc(x, lambda, c);
  }

  /** The per-share verification equation: g·z == D + E·rho + (g·x)·(lambda·c),
      for the lambda `derive_interpolating_value` gives. */
  lemma SignShareEquation(s: FrostSigner, g: Element, c: Scalar, xs: seq<NonZeroScalar>)
    requires s.commitment == NonceCommitment(Scale(g, s.d), Scale(g, s.e))
    requires Sign(s, c, xs).Ok?
    ensures var lambda := DeriveInterpolatingValue(xs, s.identifier).value;
      Scale(g, Sign(s, c, xs).value)
        == Plus(Plus(s.commitment.hiding, Scale(s.commitment.binding, s.rho)),
                Scale(Scale(g, s.x), Mul(lambda, c)))
  {
    var lambda := DeriveInterpolatingValue(xs, s.identifier).value;
    ShareAlgebra(g, s.d, s.e, s.rho, lambda, s.x, c);
  }

  /** A blind signer's share does not depend on its binding factor. */
  lemma BlindShareIgnoresRho(s: FrostSigner, rho1: Scalar, rho2: Scalar, c: Scalar, xs: seq<NonZeroScalar>)
    requires s.e == 0
    ensures Sign(StoreRho(s, rho1), c, xs) == Sign(StoreRho(s, rho2), c, xs)
  {
    assert Mul(rho1, 0) == 0 == Mul(rho2, 0);
  }

  /** The nonces are reused in every session, so two shares of one blind
      signer under two different challenges reveal lambda·x, and with it the
      secret share: x == (z1 - z2) / (lambda·(c1 - c2)). */
  lemma BlindNonceReuseRevealsShare(s: FrostSigner, c1: Scalar, c2: Scalar, xs: seq<NonZeroScalar>)
    requires s.e == 0
    requires Sign(s, c1, xs).Ok?
    requires Invertible(Mul(DeriveInterpolatingValue(xs, s.identifier).value, Sub(c1, c2)))
    ensures var lambda := DeriveInterpolatingValue(xs, s.identifier).value;
      Mul(Sub(Sign(s, c1, xs).value, Sign(s, c2, xs).value), Recip(Mul(lambda, Sub(c1, c2)))) == s.x
  {
    var lambda := DeriveInterpolatingValue(xs, s.identifier).value;
    var k := Mul(lambda, s.x);
    var base := Add(s.d, Mul(s.rho, 0));
    var z1, z2 := Add(base, Mul(k, c1)), Add(base, Mul(k, c2));
    assert Sign(s, c1, xs).value == z1 && Sign(s, c2, xs).value == z2;
    DistribSub(k, c1, c2);
    var m := Mul(lambda, Sub(c1, c2));
    var u := Recip(m);
    // z1 - z2 == (lambda·x)·(c1 - c2) == x·m
    assert Sub(z1, z2) == Mul(k, Sub(c1, c2));
    MulComm(lambda, s.x);
    MulAssoc(s.x, lambda, Sub(c1, c2));
    MulAssoc(s.x, m, u);
    MulOne(s.x);
  }

  // ---------------------------------------------------------------------------
  // Frost::signature_share

  /** The signers `signature_share` builds from the Shamir shares: signer k
      gets share k, and is blind iff its index exceeds the threshold. */
  function SignersFor(shares: seq<ShamirShare>, t: Usize, g: Element, rng: SeededRng): (ss: seq<FrostSigner>)
    ensures |ss| == |shares|
    ensures forall k :: 0 <= k < |shares| ==>
      ss[k] == NewSigner(shares[k].index, shares[k].secret, g, shares[k].index > t, rng)
  {
    seq(|shares|, k requires 0 <= k < |shares| =>
      NewSigner(shares[k].index, shares[k].secret, g, shares[k].index > t, rng))
  }

  /** `Frost::signature_share(threshold, total_signers)`.  The secret key is
      the first draw of one `test_rng()` call (`keyRng`); `shamir_split` makes
      a second `test_rng()` call for its coefficients (`coeffRng`).  Whether
      the two calls give the same stream depends on how ark-std is built: with
      a deterministic `test_rng` (`DETERMINISTIC_TEST_RNG=1`, or without the
      `std` feature) both replay one fixed-seed stream, so `coeffRng ==
      keyRng`; otherwise each call is seeded afresh and the streams are
      independent.  The generator point is a separate parameter. */
  function SignatureShare(t: Usize, n: Usize, keyRng: Draws, coeffRng: Draws, g: Element, rng: SeededRng)
    : (r: Result<Frost>)
    ensures r.Ok? <==> 2 <= t <= n
    ensures r.Err? ==> r == Split(keyRng(0), t, n, coeffRng).PropagateFailure()
    ensures r.Ok? ==> r.value.generator == g && r.value.groupPk == Scale(g, keyRng(0))
    ensures r.Ok? ==> |r.value.signers| == n && forall k :: 0 <= k < n ==>
      var s := r.value.signers[k];
      s.identifier == k + 1 && s.rho == 0
      && s.x == Eval(Coefficients(keyRng(0), t, coeffRng), k + 1)
      && (k + 1 > t ==> s.e == 0)
      && s.commitment == NonceCommitment(Scale(g, s.d), Scale(g, s.e))
  {
    DealFrom(keyRng(0), t, n, coeffRng, g, rng)
  }

  /** Dealing from an arbitrary secret key and coefficient stream. */
  function DealFrom(sk: Scalar, t: Usize, n: Usize, draws: Draws, g: Element, rng: SeededRng): (r: Result<Frost>)
    ensures r.Ok? <==> 2 <= t <= n
    ensures r.Err? ==> r == Split(sk, t, n, draws).PropagateFailure()
    ensures r.Ok? ==> r.value.generator == g && r.value.groupPk == Scale(g, sk)
    ensures r.Ok? ==> |r.value.signers| == n && forall k :: 0 <= k < n ==>
      var s := r.value.signers[k];
      s.identifier == k + 1 && s.rho == 0
      && s.x == Eval(Coefficients(sk, t, draws), k + 1)
      && (k + 1 > t ==> s.e == 0)
      && s.commitment == NonceCommitment(Scale(g, s.d), Scale(g, s.e))
  {
    var shares :- Split(sk, t, n, draws);
    Ok(Frost(g, SignersFor(shares, t, g, rng), Scale(g, sk)))
  }

  /** When the coefficient stream starts with the key's draw, as it does when
      both `test_rng()` calls replay one fixed-seed stream, the first random
      coefficient of the dealt polynomial is the secret key itself. */
  lemma SharedStreamRepeatsKey(t: Usize, keyRng: Draws, coeffRng: Draws)
    requires t >= 2 && coeffRng(0) == keyRng(0)
    ensures Coefficients(keyRng(0), t, coeffRng)[1] == Coefficients(keyRng(0), t, coeffRng)[0]
  {
  }

  /** (2a) · (L + 1)/2 == a */
  lemma HalfOfDouble(a: Scalar)
    ensures Mul(Add(a, a), (L + 1) / 2) == a
  {
    var h := (L + 1) / 2;
    assert 2 * h == L + 1;
    ModSmall(h);
    ModMul(2 * a, h);
    assert Add(a, a) == (2 * a) % L;
    calc {
      (2 * a) * h;
      a * (2 * h);
      a * (L + 1);
      a + L * a;
    }
    ModShift(a, a);
    ModSmall(a);
  }

  /** With threshold 2 and a deterministic `test_rng` (the coefficient stream
      starting with the key's draw), signer 1's share alone is 2·sk, so one
      share reveals the secret key: sk == x_1 · (L + 1)/2. */
  lemma OneShareRevealsKey(n: Usize, keyRng: Draws, coeffRng: Draws, g: Element, rng: SeededRng)
    requires n >= 2 && coeffRng(0) == keyRng(0)
    ensures SignatureShare(2, n, keyRng, coeffRng, g, rng).Ok?
    ensures Mul(SignatureShare(2, n, keyRng, coeffRng, g, rng).value.signers[0].x, (L + 1) / 2) == keyRng(0)
  {
    var sk := keyRng(0);
    assert Coefficients(sk, 2, coeffRng) == [sk, sk];
    EvalLinear(sk, sk, 1);
    MulOne(sk);
    HalfOfDouble(sk);
  }

  /** With a coefficient stream independent of the key, one share (threshold
      2) is consistent with every secret key: for any other key there is a
      stream that deals signer 1 the same share. */
  lemma OneShareHidesKey(n: Usize, sk: Scalar, draws: Draws, g: Element, rng: SeededRng, other: Scalar)
    requires n >= 2
    ensures DealFrom(sk, 2, n, draws, g, rng).Ok?
    ensures exists draws2: Draws ::
              && DealFrom(other, 2, n, draws2, g, rng).Ok?
              && DealFrom(other, 2, n, draws2, g, rng).value.signers[0].x
                 == DealFrom(sk, 2, n, draws, g, rng).value.signers[0].x
  {
    var x := DealFrom(sk, 2, n, draws, g, rng).value.signers[0].x;
    var a := Sub(x, other);
    var draws2: Draws := j => a;
    assert Coefficients(other, 2, draws2) == [other, a];
    EvalLinear(other, a, 1);
    MulOne(a);
    assert DealFrom(other, 2, n, draws2, g, rng).value.signers[0].x == x;
  }

  // ---------------------------------------------------------------------------
  // Frost::update_binding_factors

  /** Every signer has a non-zero identifier with a binding factor. */
  ghost predicate Updatable(ss: seq<FrostSigner>, bfs: seq<BindingFactor>) {
    forall k :: 0 <= k < |ss| ==> ss[k].identifier != 0 && Bound(bfs, ss[k].identifier)
  }

  /** The loop of `update_binding_factors`, signer by signer in order. */
  function UpdateSigners(ss: seq<FrostSigner>, bfs: seq<BindingFactor>): (r: Result<seq<FrostSigner>>)
    ensures r.Ok? <==> Updatable(ss, bfs)
    ensures r.Err? ==> r.error == ZeroScalar || r.error == MissingBindingFactor
    ensures r.Ok? ==> |r.value| == |ss| && forall k :: 0 <= k < |ss| ==>
      ss[k].identifier != 0
      && r.value[k] == StoreRho(ss[k], BindingFactorForParticipant(bfs, ss[k].identifier).value)
  {
    if |ss| == 0 then Ok([])
    else
      var id :- NewNonZeroScalar(ss[0].identifier);
      var rho :- BindingFactorForParticipant(bfs, id);
      assert Updatable(ss, bfs) <==> Updatable(ss[1..], bfs) by {
        forall k | 0 <= k < |ss| - 1 ensures ss[1..][k] == ss[k + 1] { }
      }
      var rest :- UpdateSigners(ss[1..], bfs);
      Ok([StoreRho(ss[0], rho)] + rest)
  }

  /** `Frost::update_binding_factors`: every signer stores the binding factor
      of its own identifier; the generator and group key are untouched. */
  function UpdateBindingFactors(f: Frost, bfs: seq<BindingFactor>): (r: Result<Frost>)
    ensures r.Ok? <==> Updatable(f.signers, bfs)
    ensures r.Ok? ==> r.value.generator == f.generator && r.value.groupPk == f.groupPk
    ensures r.Ok? ==> |r.value.signers| == |f.signers| && forall k :: 0 <= k < |f.signers| ==>
      var s := r.value.signers[k];
      f.signers[k].identifier != 0
      && s.rho == BindingFactorForParticipant(bfs, f.signers[k].identifier).value
      && s == StoreRho(f.signers[k], s.rho)
  {
    var ss :- UpdateSigners(f.signers, bfs);
    Ok(f.(signers := ss))
  }

  // ---------------------------------------------------------------------------
  // Frost::signature_aggregate and Frost::verify

  /** `signature_aggregate`: z = Σ z_i in the field. */
  function SignatureAggregate(shares: seq<Scalar>): (z: Scalar)
    ensures |shares| == 0 ==> z == 0
    ensures |shares| == 1 ==> z == shares[0]
  {
    if |shares| == 1 then
      assert shares[..0] == [];
      assert Sum(shares) == Add(Sum([]), shares[0]);
      Sum(shares)
    else
      Sum(shares)
  }

  /** The aggregate does not depend on the order of the shares. */
  lemma AggregatePermutation(a: seq<Scalar>, b: seq<Scalar>)
    requires multiset(a) == multiset(b)
    ensures SignatureAggregate(a) == SignatureAggregate(b)
  {
    SumPermutation(a, b);
  }

  /** Aggregating a concatenation adds the two partial aggregates. */
  lemma AggregateAppend(a: seq<Scalar>, b: seq<Scalar>)
    ensures SignatureAggregate(a + b) == Add(SignatureAggregate(a), SignatureAggregate(b))
  {
    SumAppend(a, b);
  }

  /** `Frost::verify`: g·s == R + group_pk·c. */
  function Verify(f: Frost, sig: SchnorrSignature, c: Scalar): (ok: bool)
    ensures ok <==> Mul(f.generator.dlog, sig.s) == Add(sig.r.dlog, Mul(f.groupPk.dlog, c))
  {
    Scale(f.generator, sig.s) == Plus(sig.r, Scale(f.groupPk, c))
  }

  /** Schnorr completeness: for the group key g·x, the response k + x·c to
      the commitment g·k verifies against the challenge c. */
  lemma VerifyAcceptsResponse(f: Frost, k: Scalar, x: Scalar, c: Scalar)
    requires f.groupPk == Scale(f.generator, x)
    ensures Verify(f, SchnorrSignature(Scale(f.generator, k), Add(k, Mul(x, c))), c)
  {
    ScaleAdd(f.generator, k, Mul(x, c));
    ScaleScale(f.generator, x, c);
  }

  /** For a generator of non-zero logarithm, at most one response verifies
      against a given commitment and challenge. */
  lemma VerifyUniqueResponse(f: Frost, r: Element, s1: Scalar, s2: Scalar, c: Scalar)
    requires Invertible(f.generator.dlog)
    requires Verify(f, SchnorrSignature(r, s1), c) && Verify(f, SchnorrSignature(r, s2), c)
    ensures s1 == s2
  {
    MulComm(f.generator.dlog, s1);
    MulComm(f.generator.dlog, s2);
    Cancel(s1, s2, f.generator.dlog);
  }
}
