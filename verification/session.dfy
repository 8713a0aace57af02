/** One signing session as the demonstration binary wires it: collect the
    commitments, compute and distribute the binding factors, compute the
    group commitment and challenge, sign, aggregate and verify.  The main
    result is that an honest session's signature verifies. */
module Session {
  import opened Wrappers
  import opened Field
  import opened Polynomial
  import opened Lagrange
  import opened Bytes
  import opened Group
  import opened Shamir
  import opened Helper
  import opened FrostProtocol

  /** The signers' identifiers, as scalars. */
  function Identifiers(ss: seq<FrostSigner>): (ids: seq<Scalar>)
    ensures |ids| == |ss| && forall k :: 0 <= k < |ss| ==> ids[k] == ss[k].identifier
  {
    seq(|ss|, k requires 0 <= k < |ss| => ss[k].identifier)
  }

  /** Every signer has a non-zero identifier. */
  predicate NonZeroIdentifiers(ss: seq<FrostSigner>) {
    forall k :: 0 <= k < |ss| ==> ss[k].identifier != 0
  }

  /** Step 2: each signer's (identifier, D, E), with the identifier wrapped by
      `NonZeroScalar::new`. */
  function CommitmentList(ss: seq<FrostSigner>): (r: Result<seq<Commitment>>)
    ensures r.Ok? <==> NonZeroIdentifiers(ss)
    ensures r.Err? ==> r.error == ZeroScalar
    ensures r.Ok? ==> |r.value| == |ss| && forall k :: 0 <= k < |ss| ==>
      ss[k].identifier != 0
      && r.value[k] == Commitment(ss[k].identifier, ss[k].commitment.hiding, ss[k].commitment.binding)
  {
    if |ss| == 0 then Ok([])
    else
      var id :- NewNonZeroScalar(ss[0].identifier);
      assert NonZeroIdentifiers(ss) <==> NonZeroIdentifiers(ss[1..]) by {
        forall k | 0 <= k < |ss| - 1 ensures ss[1..][k] == ss[k + 1] { }
      }
      var rest :- CommitmentList(ss[1..]);
      Ok([Commitment(id, ss[0].commitment.hiding, ss[0].commitment.binding)] + rest)
  }

  /** Step 4: the x-coordinates, one `NonZeroScalar` per signer. */
  function XCoordinates(ss: seq<FrostSigner>): (r: Result<seq<NonZeroScalar>>)
    ensures r.Ok? <==> NonZeroIdentifiers(ss)
    ensures r.Err? ==> r.error == ZeroScalar
    ensures r.Ok? ==> r.value == Identifiers(ss)
  {
    if |ss| == 0 then Ok([])
    else
      var id :- NewNonZeroScalar(ss[0].identifier);
      assert NonZeroIdentifiers(ss) <==> NonZeroIdentifiers(ss[1..]) by {
        forall k | 0 <= k < |ss| - 1 ensures ss[1..][k] == ss[k + 1] { }
      }
      var rest :- XCoordinates(ss[1..]);
      assert [id] + rest == Identifiers(ss);
      Ok([id] + rest)
  }

  /** Step 4: every signer's share, in signer order. */
  function SignAll(ss: seq<FrostSigner>, c: Scalar, xs: seq<NonZeroScalar>): (r: Result<seq<Scalar>>)
    ensures r.Ok? <==> forall k :: 0 <= k < |ss| ==> Sign(ss[k], c, xs).Ok?
    ensures r.Ok? ==> |r.value| == |ss| && forall k :: 0 <= k < |ss| ==> r.value[k] == Sign(ss[k], c, xs).value
    ensures r.Err? ==> exists k :: 0 <= k < |ss| && Sign(ss[k], c, xs) == Err(r.error)
  {
    if |ss| == 0 then Ok([])
    else
      var z :- Sign(ss[0], c, xs);
      assert (forall k :: 0 <= k < |ss| ==> Sign(ss[k], c, xs).Ok?)
         <==> (forall k :: 0 <= k < |ss| - 1 ==> Sign(ss[1..][k], c, xs).Ok?) by {
        forall k | 0 <= k < |ss| - 1 ensures ss[1..][k] == ss[k + 1] { }
      }
      var rest :- SignAll(ss[1..], c, xs);
      Ok([z] + rest)
  }

  /** What a session produces: the signature, the challenge it was made
      for, and the verifier's verdict. */
  datatype Transcript = Transcript(signature: SchnorrSignature, challenge: Scalar, verified: bool)

  /** Steps 2 to 6 of the demonstration, over the signers of f and a message. */
  function RunSession(f: Frost, p: Primitives, msg: seq<Byte>): (r: Result<Transcript>)
    ensures r.Ok? ==>
      r.value.challenge == ComputeChallenge(p, r.value.signature.r, f.groupPk, msg)
  {
    var cs :- CommitmentList(f.signers);
    var bfs := ComputeBindingFactors(p, f.groupPk, cs, msg);
    var f2 :- UpdateBindingFactors(f, bfs);
    var xs :- XCoordinates(f2.signers);
    var gc :- ComputeGroupCommitment(cs, bfs);
    var c := ComputeChallenge(p, gc, f.groupPk, msg);
    var zs :- SignAll(f2.signers, c, xs);
    var sig := SchnorrSignature(gc, SignatureAggregate(zs));
    Ok(Transcript(sig, c, Verify(f2, sig, c)))
  }

  /** Every identifier is non-zero, and every signer's interpolation
      denominator, the product of its differences to the other identifiers,
      is invertible. */
  ghost predicate SignersCanSign(ss: seq<FrostSigner>) {
    && NonZeroIdentifiers(ss)
    && forall k :: 0 <= k < |ss| ==> Invertible(OthersDiffProduct(Identifiers(ss), ss[k].identifier))
  }

  /** When a session completes: exactly when `SignersCanSign`.  The
      binding-factor lookups and the group commitment cannot fail, since every
      listed identifier has just been given a factor.  A zero identifier stops
      the session at the commitment list with `ZeroScalar`; any other failure
      is a signer's `inverse().unwrap()`. */
  lemma RunSessionOutcome(f: Frost, p: Primitives, msg: seq<Byte>)
    ensures RunSession(f, p, msg).Ok? <==> SignersCanSign(f.signers)
    ensures RunSession(f, p, msg).Err? ==>
      RunSession(f, p, msg).error == if NonZeroIdentifiers(f.signers) then NotInvertible else ZeroScalar
  {
    if NonZeroIdentifiers(f.signers) {
      RunSessionNonZero(f, p, msg);
    } else {
      assert CommitmentList(f.signers) == Err(ZeroScalar);
    }
  }

  /** RunSessionOutcome when no identifier is zero. */
  lemma RunSessionNonZero(f: Frost, p: Primitives, msg: seq<Byte>)
    requires NonZeroIdentifiers(f.signers)
    ensures RunSession(f, p, msg).Ok? <==> SignersCanSign(f.signers)
    ensures RunSession(f, p, msg).Err? ==> RunSession(f, p, msg).error == NotInvertible
  {
    var cs, f2, xs, gc := BeforeSigning(f, p, msg);
    RunSessionAtSigning(f, p, msg, cs, f2, xs, gc);
    SignAllOutcome(f.signers, f2.signers, ComputeChallenge(p, gc, f.groupPk, msg), xs);
  }

  /** With non-zero identifiers, every step before signing succeeds, and the
      signers keep their identifiers. */
  lemma BeforeSigning(f: Frost, p: Primitives, msg: seq<Byte>)
    returns (cs: seq<Commitment>, f2: Frost, xs: seq<NonZeroScalar>, gc: Element)
    requires NonZeroIdentifiers(f.signers)
    ensures CommitmentList(f.signers) == Ok(cs)
    ensures UpdateBindingFactors(f, ComputeBindingFactors(p, f.groupPk, cs, msg)) == Ok(f2)
    ensures XCoordinates(f2.signers) == Ok(xs)
    ensures ComputeGroupCommitment(cs, ComputeBindingFactors(p, f.groupPk, cs, msg)) == Ok(gc)
    ensures xs == Identifiers(f.signers)
    ensures |f2.signers| == |f.signers|
    ensures forall k :: 0 <= k < |f.signers| ==> f2.signers[k].identifier == f.signers[k].identifier
  {
    var rhos;
    cs, rhos, f2 := BindingStage(f, p, msg);
    xs, gc := CoordinatesAndCommitment(f, cs, ComputeBindingFactors(p, f.groupPk, cs, msg), rhos, f2);
  }

  /** After the binding factors are stored: the x-coordinates are the
      identifiers, and the group commitment succeeds. */
  lemma CoordinatesAndCommitment(f: Frost, cs: seq<Commitment>, bfs: seq<BindingFactor>, rhos: seq<Scalar>, f2: Frost)
    returns (xs: seq<NonZeroScalar>, gc: Element)
    requires NonZeroIdentifiers(f.signers) && Stored(f, cs, rhos, f2)
    requires forall k :: 0 <= k < |cs| ==> BindingFactorForParticipant(bfs, cs[k].id) == Ok(rhos[k])
    ensures XCoordinates(f2.signers) == Ok(xs) && xs == Identifiers(f.signers)
    ensures ComputeGroupCommitment(cs, bfs) == Ok(gc)
  {
    assert Identifiers(f2.signers) == Identifiers(f.signers);
    xs := XCoordinates(f2.signers).value;
    assert AllBound(cs, bfs);
    gc := ComputeGroupCommitment(cs, bfs).value;
  }

  /** Signers with non-zero identifiers all sign exactly when each one's
      interpolation denominator is invertible (`SignersCanSign`); a failure is
      `NotInvertible`. */
  lemma SignAllOutcome(ss: seq<FrostSigner>, ss2: seq<FrostSigner>, c: Scalar, xs: seq<NonZeroScalar>)
    requires NonZeroIdentifiers(ss) && xs == Identifiers(ss)
    requires |ss2| == |ss| && forall k :: 0 <= k < |ss| ==> ss2[k].identifier == ss[k].identifier
    ensures SignAll(ss2, c, xs).Ok? <==> SignersCanSign(ss)
    ensures SignAll(ss2, c, xs).Err? ==> SignAll(ss2, c, xs).error == NotInvertible
  {
    forall k | 0 <= k < |ss|
      ensures Sign(ss2[k], c, xs).Ok? <==> Invertible(OthersDiffProduct(xs, ss[k].identifier))
    {
    }
  }

  // ---------------------------------------------------------------------------
  // Honest sessions verify.

  /** The signers of f hold honest shares of the group key: x_k = f(id_k) for
      a polynomial f of at most as many coefficients as there are signers, the
      group key is g·f(0), each signer committed D = g·d and E = g·e, and the
      identifiers are non-zero with invertible differences. */
  ghost predicate Honest(f: Frost, poly: seq<Scalar>) {
    && |poly| <= |f.signers|
    && NonZeroIdentifiers(f.signers)
    && UnitDiffs(Identifiers(f.signers))
    && f.groupPk == Scale(f.generator, Eval(poly, 0))
    && forall k :: 0 <= k < |f.signers| ==>
         && f.signers[k].x == Eval(poly, f.signers[k].identifier)
         && f.signers[k].commitment
            == NonceCommitment(Scale(f.generator, f.signers[k].d), Scale(f.generator, f.signers[k].e))
  }

  /** Σ ys[i]·ws[i] as a plain sum. */
  lemma {:induction false} WeightedAsSum(ys: seq<Scalar>, ws: seq<Scalar>, s: seq<Scalar>)
    requires |s| <= |ys| && |s| <= |ws|
    requires forall i :: 0 <= i < |s| ==> s[i] == Mul(ys[i], ws[i])
    ensures Weighted(ys, ws, |s|) == Sum(s)
    decreases |s|
  {
    if |s| > 0 {
      WeightedAsSum(ys, ws, s[..|s| - 1]);
    }
  }

  /** One signer's share, multiplied into the exponent: the commitment part
      plus (G·c)·(x·lambda). */
  lemma ShareDlog(gd: Scalar, d: Scalar, e: Scalar, rho: Scalar, lambda: Scalar, x: Scalar, c: Scalar)
    ensures Mul(gd, Add(Add(d, Mul(rho, e)), Mul(Mul(lambda, x), c)))
         == Add(Add(Mul(gd, d), Mul(Mul(gd, e), rho)), Mul(Mul(gd, c), Mul(x, lambda)))
  {
    ShareAlgebra(Element(gd), d, e, rho, lambda, x, c);
    MulComm(lambda, c);
    Mul4Swap(gd, x, c, lambda);
  }

  /** The sequence k·a[i]. */
  function Scaled(k: Scalar, a: seq<Scalar>): (r: seq<Scalar>)
    ensures |r| == |a| && forall i :: 0 <= i < |a| ==> r[i] == Mul(k, a[i])
  {
    seq(|a|, i requires 0 <= i < |a| => Mul(k, a[i]))
  }

  /** The sequence a[i]·b[i]. */
  function Products(a: seq<Scalar>, b: seq<Scalar>): (r: seq<Scalar>)
    requires |a| == |b|
    ensures |r| == |a| && forall i :: 0 <= i < |a| ==> r[i] == Mul(a[i], b[i])
  {
    seq(|a|, i requires 0 <= i < |a| => Mul(a[i], b[i]))
  }

  /** Each share in the exponent splits into the commitment contribution and
      the key part (G·c)·(x·lambda). */
  lemma SharesInExponent(gd: Scalar, c: Scalar, ds: seq<Scalar>, es: seq<Scalar>,
                         rhos: seq<Scalar>, lambdas: seq<Scalar>, xs: seq<Scalar>,
                         zs: seq<Scalar>, rs: seq<Scalar>, gz: seq<Scalar>, ts: seq<Scalar>)
    requires |ds| == |zs| && |es| == |zs| && |rhos| == |zs| && |lambdas| == |zs|
    requires |xs| == |zs| && |rs| == |zs|
    requires forall k :: 0 <= k < |zs| ==>
      zs[k] == Add(Add(ds[k], Mul(rhos[k], es[k])), Mul(Mul(lambdas[k], xs[k]), c))
    requires forall k :: 0 <= k < |zs| ==> rs[k] == Add(Mul(gd, ds[k]), Mul(Mul(gd, es[k]), rhos[k]))
    requires gz == Scaled(gd, zs) && ts == Scaled(Mul(gd, c), Products(xs, lambdas))
    ensures forall k :: 0 <= k < |zs| ==> gz[k] == Add(rs[k], ts[k])
  {
    forall k | 0 <= k < |zs|
      ensures gz[k] == Add(rs[k], ts[k])
    {
      ShareDlog(gd, ds[k], es[k], rhos[k], lambdas[k], xs[k], c);
    }
  }

  /** The aggregate equation on plain values: with z_k the signers' shares,
      R_k their commitment contributions and Σ x_k·lambda_k == sk,
      G·Σ z_k == Σ R_k + (G·sk)·c. */
  lemma AggregateEquation(gd: Scalar, c: Scalar, sk: Scalar, ds: seq<Scalar>, es: seq<Scalar>,
                          rhos: seq<Scalar>, lambdas: seq<Scalar>, xs: seq<Scalar>,
                          zs: seq<Scalar>, rs: seq<Scalar>)
    requires |ds| == |zs| && |es| == |zs| && |rhos| == |zs| && |lambdas| == |zs|
    requires |xs| == |zs| && |rs| == |zs|
    requires forall k :: 0 <= k < |zs| ==>
      zs[k] == Add(Add(ds[k], Mul(rhos[k], es[k])), Mul(Mul(lambdas[k], xs[k]), c))
    requires forall k :: 0 <= k < |zs| ==> rs[k] == Add(Mul(gd, ds[k]), Mul(Mul(gd, es[k]), rhos[k]))
    requires Weighted(xs, lambdas, |zs|) == sk
    ensures Mul(gd, Sum(zs)) == Add(Sum(rs), Mul(Mul(gd, sk), c))
  {
    var m := |zs|;
    var gz := Scaled(gd, zs);
    var ws := Products(xs, lambdas);
    var gc := Mul(gd, c);
    var ts := Scaled(gc, ws);
    SharesInExponent(gd, c, ds, es, rhos, lambdas, xs, zs, rs, gz, ts);
    WeightedAsSum(xs, lambdas, ws);
    SumOfShares(gd, gc, zs, rs, ws, gz, ts);
    KeyTerm(gd, c, sk);
  }

  /** Summing the split shares: G·Σ z == Σ R + (G·c)·Σ w. */
  lemma SumOfShares(gd: Scalar, gc: Scalar, zs: seq<Scalar>, rs: seq<Scalar>, ws: seq<Scalar>,
                    gz: seq<Scalar>, ts: seq<Scalar>)
    requires gz == Scaled(gd, zs) && ts == Scaled(gc, ws)
    requires |rs| == |zs| && |ws| == |zs|
    requires forall k :: 0 <= k < |zs| ==> gz[k] == Add(rs[k], ts[k])
    ensures Mul(gd, Sum(zs)) == Add(Sum(rs), Mul(gc, Sum(ws)))
  {
    SumPointwiseScale(gd, zs, gz);
    SumPointwiseAdd(rs, ts, gz);
    SumPointwiseScale(gc, ws, ts);
  }

  lemma KeyTerm(gd: Scalar, c: Scalar, sk: Scalar)
    ensures Mul(Mul(gd, c), sk) == Mul(Mul(gd, sk), c)
  {
    MulAssoc(gd, c, sk);
    MulComm(c, sk);
    MulAssoc(gd, sk, c);
  }

  /** After step 3: cs lists the signers' commitments, and signer k of f2 is
      signer k of f holding rhos[k]. */
  ghost predicate Stored(f: Frost, cs: seq<Commitment>, rhos: seq<Scalar>, f2: Frost) {
    && |rhos| == |cs| == |f.signers| == |f2.signers|
    && f2.generator == f.generator && f2.groupPk == f.groupPk
    && forall k :: 0 <= k < |cs| ==>
         && f2.signers[k] == StoreRho(f.signers[k], rhos[k])
         && cs[k].id == f.signers[k].identifier
         && cs[k].hiding == f.signers[k].commitment.hiding
         && cs[k].binding == f.signers[k].commitment.binding
  }

  /** After step 4: zs are the shares of the signers ss at x-coordinates xs,
      each with the basis value of its position as lambda. */
  ghost predicate Signed(ss: seq<FrostSigner>, c: Scalar, xs: seq<NonZeroScalar>, zs: seq<Scalar>) {
    && xs == Identifiers(ss) && |zs| == |ss|
    && (forall k :: 0 <= k < |ss| ==> DeriveInterpolatingValue(xs, xs[k]) == Ok(Bases(xs)[k]))
    && forall k :: 0 <= k < |ss| ==>
         zs[k] == Add(Add(ss[k].d, Mul(ss[k].rho, ss[k].e)), Mul(Mul(Bases(xs)[k], ss[k].x), c))
  }

  /** Steps 2 and 3 of an honest session: the commitment list is built, every
      signer finds its binding factor, and signer k stores rhos[k], the rho
      `compute_binding_factors` gave its identifier. */
  lemma BindingStage(f: Frost, p: Primitives, msg: seq<Byte>)
    returns (cs: seq<Commitment>, rhos: seq<Scalar>, f2: Frost)
    requires NonZeroIdentifiers(f.signers)
    ensures CommitmentList(f.signers) == Ok(cs)
    ensures UpdateBindingFactors(f, ComputeBindingFactors(p, f.groupPk, cs, msg)) == Ok(f2)
    ensures Stored(f, cs, rhos, f2)
    ensures forall k :: 0 <= k < |cs| ==>
      BindingFactorForParticipant(ComputeBindingFactors(p, f.groupPk, cs, msg), cs[k].id) == Ok(rhos[k])
  {
    cs := CommitmentList(f.signers).value;
    var bfs := ComputeBindingFactors(p, f.groupPk, cs, msg);
    rhos := ComputedRhos(p, f.groupPk, cs, msg);
    f2 := UpdateWithLookups(f, bfs, cs, rhos);
  }

  /** The rho every participant of a list finds in the list's own binding factors. */
  lemma ComputedRhos(p: Primitives, groupPk: Element, cs: seq<Commitment>, msg: seq<Byte>)
    returns (rhos: seq<Scalar>)
    ensures |rhos| == |cs|
    ensures forall k :: 0 <= k < |cs| ==>
      BindingFactorForParticipant(ComputeBindingFactors(p, groupPk, cs, msg), cs[k].id) == Ok(rhos[k])
  {
    var prefix := RhoInputPrefix(p, groupPk, cs, msg);
    rhos := seq(|cs|, k requires 0 <= k < |cs| => BindingRho(p, prefix, cs[k].id));
    forall k | 0 <= k < |cs|
      ensures BindingFactorForParticipant(ComputeBindingFactors(p, groupPk, cs, msg), cs[k].id) == Ok(rhos[k])
    {
      LookupComputed(p, groupPk, cs, msg, k);
    }
  }

  /** Distributing binding factors that every signer finds. */
  lemma UpdateWithLookups(f: Frost, bfs: seq<BindingFactor>, cs: seq<Commitment>, rhos: seq<Scalar>)
    returns (f2: Frost)
    requires |cs| == |f.signers| && |rhos| == |cs|
    requires forall k :: 0 <= k < |cs| ==> cs[k].id == f.signers[k].identifier
    requires forall k :: 0 <= k < |cs| ==> BindingFactorForParticipant(bfs, cs[k].id) == Ok(rhos[k])
    ensures UpdateBindingFactors(f, bfs) == Ok(f2)
    ensures |f2.signers| == |f.signers|
    ensures f2.generator == f.generator && f2.groupPk == f.groupPk
    ensures forall k :: 0 <= k < |cs| ==> f2.signers[k] == StoreRho(f.signers[k], rhos[k])
  {
    assert Updatable(f.signers, bfs) by {
      forall k | 0 <= k < |f.signers|
        ensures f.signers[k].identifier != 0 && Bound(bfs, f.signers[k].identifier)
      {
        assert cs[k].id == f.signers[k].identifier;
      }
    }
    f2 := UpdateBindingFactors(f, bfs).value;
  }

  /** Step 4 of an honest session: every signer signs, with the basis value
      of its position as lambda. */
  lemma SigningStage(ss: seq<FrostSigner>, c: Scalar, xs: seq<NonZeroScalar>)
    returns (zs: seq<Scalar>)
    requires xs == Identifiers(ss) && UnitDiffs(xs)
    ensures SignAll(ss, c, xs) == Ok(zs)
    ensures Signed(ss, c, xs, zs)
  {
    forall k | 0 <= k < |ss|
      ensures DeriveInterpolatingValue(xs, xs[k]) == Ok(Bases(xs)[k])
      ensures Sign(ss[k], c, xs).Ok?
      ensures Sign(ss[k], c, xs).value
           == Add(Add(ss[k].d, Mul(ss[k].rho, ss[k].e)), Mul(Mul(Bases(xs)[k], ss[k].x), c))
    {
      DeriveMatchesBasis(xs, k);
      SignAtBasis(ss[k], c, xs, k);
    }
    zs := SignAll(ss, c, xs).value;
  }

  /** The contributions D_k + E_k·rho_k, as discrete logarithms. */
  function CommitmentDlogs(cs: seq<Commitment>, rhos: seq<Scalar>): (rs: seq<Scalar>)
    requires |rhos| == |cs|
    ensures |rs| == |cs|
    ensures forall k :: 0 <= k < |cs| ==> rs[k] == CommitmentShare(cs[k], rhos[k]).dlog
  {
    seq(|cs|, k requires 0 <= k < |cs| => CommitmentShare(cs[k], rhos[k]).dlog)
  }

  /** The signers' fields after step 3, as plain sequences: nonces, binding
      factors and shares, and each contribution D_k + E_k·rho_k in the exponent. */
  lemma PlainValues(f: Frost, poly: seq<Scalar>, ss2: seq<FrostSigner>, cs: seq<Commitment>,
                    rhos: seq<Scalar>, xs: seq<NonZeroScalar>)
    returns (ds: seq<Scalar>, es: seq<Scalar>, xv: seq<Scalar>)
    requires Honest(f, poly)
    requires Stored(f, cs, rhos, Frost(f.generator, ss2, f.groupPk))
    requires xs == Identifiers(ss2)
    ensures |ds| == |es| == |xv| == |cs|
    ensures xv == seq(|xs|, i requires 0 <= i < |xs| => Eval(poly, xs[i]))
    ensures forall k :: 0 <= k < |cs| ==>
      && ss2[k].d == ds[k] && ss2[k].e == es[k] && ss2[k].rho == rhos[k] && ss2[k].x == xv[k]
    ensures forall k :: 0 <= k < |cs| ==>
      CommitmentDlogs(cs, rhos)[k]
        == Add(Mul(f.generator.dlog, ds[k]), Mul(Mul(f.generator.dlog, es[k]), rhos[k]))
  {
    var m := |cs|;
    ds := seq(m, k requires 0 <= k < m => ss2[k].d);
    es := seq(m, k requires 0 <= k < m => ss2[k].e);
    xv := seq(|xs|, i requires 0 <= i < |xs| => Eval(poly, xs[i]));
  }

  /** The verification equation in the exponent, for the shares of an honest
      session, on plain values. */
  lemma ExponentStage(gd: Scalar, poly: seq<Scalar>, xs: seq<NonZeroScalar>, c: Scalar,
                      ds: seq<Scalar>, es: seq<Scalar>, rhos: seq<Scalar>, xv: seq<Scalar>,
                      zs: seq<Scalar>, rs: seq<Scalar>)
    requires |poly| <= |xs| && UnitDiffs(xs)
    requires |ds| == |zs| && |es| == |zs| && |rhos| == |zs| && |xv| == |zs| && |rs| == |zs| && |xs| == |zs|
    requires xv == seq(|xs|, i requires 0 <= i < |xs| => Eval(poly, xs[i]))
    requires forall k :: 0 <= k < |zs| ==> DeriveInterpolatingValue(xs, xs[k]) == Ok(Bases(xs)[k])
    requires forall k :: 0 <= k < |zs| ==>
      zs[k] == Add(Add(ds[k], Mul(rhos[k], es[k])), Mul(Mul(Bases(xs)[k], xv[k]), c))
    requires forall k :: 0 <= k < |zs| ==> rs[k] == Add(Mul(gd, ds[k]), Mul(Mul(gd, es[k]), rhos[k]))
    ensures Mul(gd, Sum(zs)) == Add(Sum(rs), Mul(Mul(gd, Eval(poly, 0)), c))
  {
    InterpolatingValuesRecoverConstant(xs, Bases(xs), poly);
    AggregateEquation(gd, c, Eval(poly, 0), ds, es, rhos, Bases(xs), xv, zs, rs);
  }

  /** RunSession up to signing: given the outcome of the steps before it, the
      session succeeds or fails with SignAll. */
  lemma RunSessionAtSigning(f: Frost, p: Primitives, msg: seq<Byte>, cs: seq<Commitment>, f2: Frost,
                            xs: seq<NonZeroScalar>, gc: Element)
    requires CommitmentList(f.signers) == Ok(cs)
    requires UpdateBindingFactors(f, ComputeBindingFactors(p, f.groupPk, cs, msg)) == Ok(f2)
    requires XCoordinates(f2.signers) == Ok(xs)
    requires ComputeGroupCommitment(cs, ComputeBindingFactors(p, f.groupPk, cs, msg)) == Ok(gc)
    ensures var zs := SignAll(f2.signers, ComputeChallenge(p, gc, f.groupPk, msg), xs);
      && RunSession(f, p, msg).Ok? == zs.Ok?
      && (zs.Err? ==> RunSession(f, p, msg).error == zs.error)
  {
  }

  /** RunSession, step by step: given each step's outcome, the transcript. */
  lemma RunSessionSteps(f: Frost, p: Primitives, msg: seq<Byte>, cs: seq<Commitment>, f2: Frost,
                        xs: seq<NonZeroScalar>, gc: Element, zs: seq<Scalar>)
    requires CommitmentList(f.signers) == Ok(cs)
    requires UpdateBindingFactors(f, ComputeBindingFactors(p, f.groupPk, cs, msg)) == Ok(f2)
    requires XCoordinates(f2.signers) == Ok(xs)
    requires ComputeGroupCommitment(cs, ComputeBindingFactors(p, f.groupPk, cs, msg)) == Ok(gc)
    requires SignAll(f2.signers, ComputeChallenge(p, gc, f.groupPk, msg), xs) == Ok(zs)
    ensures RunSession(f, p, msg).Ok?
    ensures RunSession(f, p, msg).value.signature == SchnorrSignature(gc, SignatureAggregate(zs))
    ensures RunSession(f, p, msg).value.verified
         == Verify(f2, SchnorrSignature(gc, SignatureAggregate(zs)), ComputeChallenge(p, gc, f.groupPk, msg))
  {
  }

  /** The verification equation in the exponent for an honest session's shares. */
  lemma ExponentOfStages(f: Frost, poly: seq<Scalar>, cs: seq<Commitment>, rhos: seq<Scalar>, f2: Frost,
                         c: Scalar, xs: seq<NonZeroScalar>, zs: seq<Scalar>)
    requires Honest(f, poly) && Stored(f, cs, rhos, f2) && Signed(f2.signers, c, xs, zs) && UnitDiffs(xs)
    ensures Mul(f.generator.dlog, Sum(zs)) == Add(Sum(CommitmentDlogs(cs, rhos)), Mul(f.groupPk.dlog, c))
  {
    assert f2 == Frost(f.generator, f2.signers, f.groupPk);
    var ds, es, xv := PlainValues(f, poly, f2.signers, cs, rhos, xs);
    ExponentStage(f.generator.dlog, poly, xs, c, ds, es, rhos, xv, zs, CommitmentDlogs(cs, rhos));
  }

  /** An honest session succeeds and its signature verifies: with shares on
      one polynomial whose value at 0 is the group secret, at least as many
      signers as coefficients, and identifiers with invertible differences,
      g·s == R + group_pk·c holds for the aggregated s, the group commitment R
      and the challenge c. */
  lemma HonestSessionVerifies(f: Frost, p: Primitives, msg: seq<Byte>, poly: seq<Scalar>)
    requires Honest(f, poly)
    ensures RunSession(f, p, msg).Ok?
    ensures RunSession(f, p, msg).value.verified
  {
    var cs, f2, xs, gc, zs := HonestSteps(f, p, msg, poly);
    RunSessionSteps(f, p, msg, cs, f2, xs, gc, zs);
  }

  /** The outcome of each step of an honest session, and the verification
      equation for its signature. */
  lemma HonestSteps(f: Frost, p: Primitives, msg: seq<Byte>, poly: seq<Scalar>)
    returns (cs: seq<Commitment>, f2: Frost, xs: seq<NonZeroScalar>, gc: Element, zs: seq<Scalar>)
    requires Honest(f, poly)
    ensures CommitmentList(f.signers) == Ok(cs)
    ensures UpdateBindingFactors(f, ComputeBindingFactors(p, f.groupPk, cs, msg)) == Ok(f2)
    ensures XCoordinates(f2.signers) == Ok(xs)
    ensures ComputeGroupCommitment(cs, ComputeBindingFactors(p, f.groupPk, cs, msg)) == Ok(gc)
    ensures SignAll(f2.signers, ComputeChallenge(p, gc, f.groupPk, msg), xs) == Ok(zs)
    ensures Verify(f2, SchnorrSignature(gc, SignatureAggregate(zs)), ComputeChallenge(p, gc, f.groupPk, msg))
  {
    var rhos;
    cs, rhos, f2 := BindingStage(f, p, msg);
    xs, gc, zs := AfterBinding(f, poly, p, msg, cs, ComputeBindingFactors(p, f.groupPk, cs, msg), rhos, f2);
  }

  /** Steps 4 to 6 of an honest session, once every signer holds its rho. */
  lemma AfterBinding(f: Frost, poly: seq<Scalar>, p: Primitives, msg: seq<Byte>, cs: seq<Commitment>,
                     bfs: seq<BindingFactor>, rhos: seq<Scalar>, f2: Frost)
    returns (xs: seq<NonZeroScalar>, gc: Element, zs: seq<Scalar>)
    requires Honest(f, poly) && Stored(f, cs, rhos, f2)
    requires forall k :: 0 <= k < |cs| ==> BindingFactorForParticipant(bfs, cs[k].id) == Ok(rhos[k])
    ensures XCoordinates(f2.signers) == Ok(xs)
    ensures ComputeGroupCommitment(cs, bfs) == Ok(gc)
    ensures SignAll(f2.signers, ComputeChallenge(p, gc, f.groupPk, msg), xs) == Ok(zs)
    ensures Verify(f2, SchnorrSignature(gc, SignatureAggregate(zs)), ComputeChallenge(p, gc, f.groupPk, msg))
  {
    assert Identifiers(f2.signers) == Identifiers(f.signers);
    xs := XCoordinates(f2.signers).value;
    GroupCommitmentSum(cs, bfs, rhos);
    gc := Element(Sum(CommitmentDlogs(cs, rhos)));
    var c := ComputeChallenge(p, gc, f.groupPk, msg);
    zs := SigningStage(f2.signers, c, xs);
    ExponentOfStages(f, poly, cs, rhos, f2, c, xs, zs);
  }

  // ---------------------------------------------------------------------------
  // Dealt sessions.

  /** A dealt signer set is honest for the dealt polynomial, once the
      identifiers 1..n have invertible differences. */
  lemma DealtIsHonest(sk: Scalar, t: Usize, n: Usize, draws: Draws, g: Element, rng: SeededRng)
    requires 2 <= t <= n && UnitDiffs(Identifiers(DealFrom(sk, t, n, draws, g, rng).value.signers))
    ensures Honest(DealFrom(sk, t, n, draws, g, rng).value, Coefficients(sk, t, draws))
  {
    EvalAtZero(Coefficients(sk, t, draws));
  }

  /** Over a prime modulus, a session run by all n signers of
      `signature_share(t, n)` yields a signature that verifies, whatever the
      key, the coefficient draws, the nonces, the hash and the message. */
  lemma DealtSessionVerifies(sk: Scalar, t: Usize, n: Usize, draws: Draws, g: Element, rng: SeededRng,
                             p: Primitives, msg: seq<Byte>)
    requires PrimeModulus() && 2 <= t <= n
    ensures DealFrom(sk, t, n, draws, g, rng).Ok?
    ensures RunSession(DealFrom(sk, t, n, draws, g, rng).value, p, msg).Ok?
    ensures RunSession(DealFrom(sk, t, n, draws, g, rng).value, p, msg).value.verified
  {
    var f := DealFrom(sk, t, n, draws, g, rng).value;
    var ids := Identifiers(f.signers);
    assert forall k :: 0 <= k < |ids| ==> ids[k] == k + 1;
    DistinctUnitDiffs(ids);
    DealtIsHonest(sk, t, n, draws, g, rng);
    HonestSessionVerifies(f, p, msg, Coefficients(sk, t, draws));
  }

  /** The signers at the given positions, in the given order. */
  function Select(ss: seq<FrostSigner>, idx: seq<nat>): (sub: seq<FrostSigner>)
    requires forall i :: 0 <= i < |idx| ==> idx[i] < |ss|
    ensures |sub| == |idx| && forall i :: 0 <= i < |idx| ==> sub[i] == ss[idx[i]]
  {
    seq(|idx|, i requires 0 <= i < |idx| => ss[idx[i]])
  }

  /** Over a prime modulus, any t or more distinct signers of
      `signature_share(t, n)`, in any order, run a session whose signature
      verifies against the group key. */
  lemma DealtSubsetVerifies(sk: Scalar, t: Usize, n: Usize, draws: Draws, g: Element, rng: SeededRng,
                            p: Primitives, msg: seq<Byte>, idx: seq<nat>)
    requires PrimeModulus() && 2 <= t <= n && t <= |idx|
    requires forall i :: 0 <= i < |idx| ==> idx[i] < n
    requires forall i, j :: 0 <= i < j < |idx| ==> idx[i] != idx[j]
    ensures DealFrom(sk, t, n, draws, g, rng).Ok?
    ensures var f := DealFrom(sk, t, n, draws, g, rng).value;
            var sub := Frost(f.generator, Select(f.signers, idx), f.groupPk);
            RunSession(sub, p, msg).Ok? && RunSession(sub, p, msg).value.verified
  {
    var f := DealFrom(sk, t, n, draws, g, rng).value;
    var sub := Frost(f.generator, Select(f.signers, idx), f.groupPk);
    var poly := Coefficients(sk, t, draws);
    var ids := Identifiers(sub.signers);
    assert forall i :: 0 <= i < |ids| ==> ids[i] == idx[i] + 1;
    DistinctUnitDiffs(ids);
    EvalAtZero(poly);
    assert Honest(sub, poly);
    HonestSessionVerifies(sub, p, msg, poly);
  }

  /** The identifiers 1..5 have invertible differences in the ed25519 scalar
      field, shown by explicit inverses: 3·(2L + 1)/3 = 1, 4·(3L + 1)/4 = 1,
      (L - 3)·(L - 1)/3 = 1 and (L - 4)·(L - 1)/4 = 1 modulo L, besides those
      of 1 and 2. */
  lemma FirstFiveIndicesUnitDiffs()
    ensures UnitDiffs([1, 2, 3, 4, 5])
  {
    var xs: seq<Scalar> := [1, 2, 3, 4, 5];
    SmallUnits();
    forall i, j | 0 <= i < 5 && 0 <= j < 5 && i != j
      ensures Invertible(Sub(xs[i], xs[j]))
    {
      var d := Sub(xs[i], xs[j]);
      assert d == 1 || d == 2 || d == 3 || d == 4 || d == L - 1 || d == L - 2 || d == L - 3 || d == L - 4;
    }
  }

  /** ±1, ±2, ±3 and ±4 are units, with the inverses named above. */
  lemma SmallUnits()
    ensures Invertible(1) && Invertible(2) && Invertible(3) && Invertible(4)
    ensures Invertible(L - 1) && Invertible(L - 2) && Invertible(L - 3) && Invertible(L - 4)
  {
    UnitByWitness(1,
      1,
      0);
    UnitByWitness(2,
      3618502788666131106986593281521497120428558179689953803000975469142727125495,
      1);
    UnitByWitness(3,
      4824670384888174809315457708695329493904744239586605070667967292190302833993,
      2);
    UnitByWitness(4,
      5427754182999196660479889922282245680642837269534930704501463203714090688242,
      3);
    UnitByWitness(L - 1,
      7237005577332262213973186563042994240857116359379907606001950938285454250988,
      7237005577332262213973186563042994240857116359379907606001950938285454250987);
    UnitByWitness(L - 2,
      3618502788666131106986593281521497120428558179689953803000975469142727125494,
      3618502788666131106986593281521497120428558179689953803000975469142727125493);
    UnitByWitness(L - 3,
      2412335192444087404657728854347664746952372119793302535333983646095151416996,
      2412335192444087404657728854347664746952372119793302535333983646095151416995);
    UnitByWitness(L - 4,
      1809251394333065553493296640760748560214279089844976901500487734571363562747,
      1809251394333065553493296640760748560214279089844976901500487734571363562746);
  }

  /** a·v == 1 + L·q exhibits v as the inverse of a. */
  lemma UnitByWitness(a: Scalar, v: Scalar, q: int)
    requires a * v == 1 + L * q
    ensures Invertible(a) && Recip(a) == v
  {
    ModShift(1, q);
    InverseUnique(a, v);
  }

  /** The demonstration program: `signature_share(3, 5)` followed by a session
      of all five signers produces a signature that verifies, with no
      hypothesis on the modulus, the random streams, the hash or the message. */
  lemma DemonstrationVerifies(keyRng: Draws, coeffRng: Draws, g: Element, rng: SeededRng,
                              p: Primitives, msg: seq<Byte>)
    ensures SignatureShare(3, 5, keyRng, coeffRng, g, rng).Ok?
    ensures RunSession(SignatureShare(3, 5, keyRng, coeffRng, g, rng).value, p, msg).Ok?
    ensures RunSession(SignatureShare(3, 5, keyRng, coeffRng, g, rng).value, p, msg).value.verified
  {
    var f := SignatureShare(3, 5, keyRng, coeffRng, g, rng).value;
    var ids := Identifiers(f.signers);
    assert ids == [1, 2, 3, 4, 5];
    FirstFiveIndicesUnitDiffs();
    DealtIsHonest(keyRng(0), 3, 5, coeffRng, g, rng);
    HonestSessionVerifies(f, p, msg, Coefficients(keyRng(0), 3, coeffRng));
  }
}
