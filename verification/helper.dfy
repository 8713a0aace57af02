/** The FROST helper functions: the non-zero identifier guard, nonce
    generation (section 4.1 of RFC 9591), Lagrange coefficients (section 4.2),
    commitment-list encoding and binding-factor lookup (section 4.3), binding
    factors (section 4.4), the group commitment (section 4.5) and the
    challenge (section 4.6).  SHA-512 and the point serialisation are the
    parameters bundled in `Primitives`. */
module Helper {
  import opened Wrappers
  import opened Field
  import opened Polynomial
  import opened Lagrange
  import opened Bytes
  import opened Group
  import opened Ciphersuite

  /** The library functions the helpers call but the model does not open:
      SHA-512 and `serialize_compressed` on points. */
  datatype Primitives = Primitives(sha: Hash, encodePoint: Element -> seq<Byte>)

  type NonZeroScalar = x: Scalar | x != 0 witness 1

  /** `NonZeroScalar::new`: panics on zero, otherwise wraps the value. */
  function NewNonZeroScalar(value: Scalar): (r: Result<NonZeroScalar>)
    ensures r.Ok? <==> value != 0
    ensures r.Ok? ==> r.value == value
    ensures r.Err? ==> r.error == ZeroScalar
  {
    if value == 0 then Err(ZeroScalar) else Ok(value)
  }

  /** `BindingFactor`: (identifier, rho). */
  datatype BindingFactor = BindingFactor(id: NonZeroScalar, rho: Scalar)

  /** `Commitment`: (identifier, hiding nonce commitment D, binding nonce commitment E). */
  datatype Commitment = Commitment(id: NonZeroScalar, hiding: Element, binding: Element)

  // ---------------------------------------------------------------------------
  // nonce_generate

  /** The message `nonce_generate` hashes: 32 random bytes, then the secret's
      32 bytes. */
  function NonceMessage(random: seq<Byte>, secret: Scalar): (m: seq<Byte>)
    requires |random| == 32
    ensures |m| == 64 && m[..32] == random
    ensures FromLe(m[32..]) == secret
  {
    ScalarBytesRoundTrip(secret);
    assert (random + ScalarBytes(secret))[32..] == ScalarBytes(secret);
    random + ScalarBytes(secret)
  }

  /** `nonce_generate(secret)`, with its 32 random bytes as a parameter:
      H3(random ‖ secret) reduced modulo L. */
  function NonceGenerate(p: Primitives, secret: Scalar, random: seq<Byte>): Scalar
    requires |random| == 32
  {
    FromLeBytesModOrder(H3(p.sha, NonceMessage(random, secret)))
  }

  /** The SHA-512 input of `nonce_generate` determines both the random bytes
      and the secret: distinct pairs hash distinct strings. */
  lemma NonceInputInjective(r1: seq<Byte>, s1: Scalar, r2: seq<Byte>, s2: Scalar)
    requires |r1| == 32 && |r2| == 32
    requires Tagged(Nonce, NonceMessage(r1, s1)) == Tagged(Nonce, NonceMessage(r2, s2))
    ensures r1 == r2 && s1 == s2
  {
    TaggedInjective(Nonce, NonceMessage(r1, s1), Nonce, NonceMessage(r2, s2));
  }

  // ---------------------------------------------------------------------------
  // derive_interpolating_value

  /** The numerator: Π x_j over the entries x_j != x_i, in order. */
  function OthersProduct(xs: seq<NonZeroScalar>, xi: NonZeroScalar): Scalar {
    if |xs| == 0 then 1
    else
      var rest := OthersProduct(xs[..|xs| - 1], xi);
      var xj := xs[|xs| - 1];
      if xj == xi then rest else Mul(rest, xj)
  }

  /** The denominator: Π (x_j - x_i) over the entries x_j != x_i, in order. */
  function OthersDiffProduct(xs: seq<NonZeroScalar>, xi: NonZeroScalar): Scalar {
    if |xs| == 0 then 1
    else
      var rest := OthersDiffProduct(xs[..|xs| - 1], xi);
      var xj := xs[|xs| - 1];
      if xj == xi then rest else Mul(rest, Sub(xj, xi))
  }

  /** `derive_interpolating_value(x_coordinates, x_i)`: numerator / denominator,
      which fails only if the denominator has no inverse. */
  function DeriveInterpolatingValue(xs: seq<NonZeroScalar>, xi: NonZeroScalar): (r: Result<Scalar>)
    ensures r.Ok? <==> Invertible(OthersDiffProduct(xs, xi))
    ensures r.Ok? ==> Mul(r.value, OthersDiffProduct(xs, xi)) == OthersProduct(xs, xi)
    ensures r.Err? ==> r.error == NotInvertible
  {
    var num, den := OthersProduct(xs, xi), OthersDiffProduct(xs, xi);
    match Inverse(den)
    case None => Err(NotInvertible)
    case Some(inv) =>
      MulAssoc(num, inv, den);
      MulComm(inv, den);
      MulOne(num);
      Ok(Mul(num, inv))
  }

  /** The denominator is a unit when every factor x_j - x_i is. */
  lemma {:induction false} OthersDiffInvertible(xs: seq<NonZeroScalar>, xi: NonZeroScalar)
    requires forall j :: 0 <= j < |xs| && xs[j] != xi ==> Invertible(Sub(xs[j], xi))
    ensures Invertible(OthersDiffProduct(xs, xi))
    decreases |xs|
  {
    if |xs| == 0 {
      InverseUnique(1, 1);
    } else {
      var n := |xs|;
      OthersDiffInvertible(xs[..n - 1], xi);
      if xs[n - 1] != xi {
        InvertibleMul(OthersDiffProduct(xs[..n - 1], xi), Sub(xs[n - 1], xi));
      }
    }
  }

  /** In the prime field the division never fails, whatever the list: in
      particular not when x_i is absent from it or occurs in it more than once. */
  lemma DeriveNeverFails(xs: seq<NonZeroScalar>, xi: NonZeroScalar)
    requires PrimeModulus()
    ensures DeriveInterpolatingValue(xs, xi).Ok?
  {
    forall j | 0 <= j < |xs| && xs[j] != xi
      ensures Invertible(Sub(xs[j], xi))
    {
      NonZeroInvertible(Sub(xs[j], xi));
    }
    OthersDiffInvertible(xs, xi);
  }

  /** The entries equal to x_i are skipped: adding x_i to the list, once or
      twice, changes nothing. */
  lemma DeriveSkipsOwnEntries(xs: seq<NonZeroScalar>, xi: NonZeroScalar)
    ensures DeriveInterpolatingValue(xs + [xi], xi) == DeriveInterpolatingValue(xs, xi)
    ensures DeriveInterpolatingValue(xs + [xi, xi], xi) == DeriveInterpolatingValue(xs, xi)
  {
    assert (xs + [xi])[..|xs|] == xs;
    assert (xs + [xi, xi])[..|xs| + 1] == xs + [xi];
  }

  /** With no other entries both products are empty, and the value is 1. */
  lemma {:induction false} DeriveAlone(xs: seq<NonZeroScalar>, xi: NonZeroScalar)
    requires forall j :: 0 <= j < |xs| ==> xs[j] == xi
    ensures DeriveInterpolatingValue(xs, xi) == Ok(1)
    decreases |xs|
  {
    if |xs| > 0 {
      DeriveAlone(xs[..|xs| - 1], xi);
    } else {
      InverseUnique(1, 1);
      MulOne(1);
    }
  }

  /** (0 - x) * (x - y) == x * (y - x) */
  lemma SignSwap(x: Scalar, y: Scalar)
    ensures Mul(Sub(0, x), Sub(x, y)) == Mul(x, Sub(y, x))
  {
    var d := Sub(x, y);
    assert Sub(y, x) == Neg(d);
    MulNeg(x, d);
    MulNeg(d, x);
    MulComm(x, d);
    MulComm(Neg(x), d);
    MulComm(x, Neg(d));
  }

  /** The products of reconstruct and of derive, cross-multiplied, agree:
      Π(0 - x_j) · Π(x_j - x_i) == Π x_j · Π(x_i - x_j), where position skip
      holds the only copy of x_i (or none, if skip is out of range). */
  lemma {:induction false} CrossProducts(xs: seq<NonZeroScalar>, xi: NonZeroScalar, skip: int)
    requires forall j :: 0 <= j < |xs| ==> (xs[j] == xi <==> j == skip)
    ensures Mul(ProdDiff(0, xs, skip), OthersDiffProduct(xs, xi))
         == Mul(OthersProduct(xs, xi), ProdDiff(xi, xs, skip))
    decreases |xs|
  {
    var n := |xs|;
    if n > 0 {
      var init := xs[..n - 1];
      CrossProducts(init, xi, skip);
      var x := xs[n - 1];
      if n - 1 != skip {
        var p0, dd := ProdDiff(0, init, skip), OthersDiffProduct(init, xi);
        var o, pi := OthersProduct(init, xi), ProdDiff(xi, init, skip);
        Mul4Swap(p0, Sub(0, x), dd, Sub(x, xi));
        SignSwap(x, xi);
        Mul4Swap(o, x, pi, Sub(xi, x));
      }
    }
  }

  /** On a list with unit differences, `derive_interpolating_value` at x_i is
      the Lagrange basis value at 0 that `shamir_reconstruct` uses:
      Π x_j / Π (x_j - x_i) == Π (0 - x_j) / Π (x_i - x_j). */
  lemma DeriveMatchesBasis(xs: seq<NonZeroScalar>, i: nat)
    requires i < |xs| && UnitDiffs(xs)
    ensures DeriveInterpolatingValue(xs, xs[i]) == Ok(Basis(xs, i))
  {
    var xi := xs[i];
    forall j | 0 <= j < |xs|
      ensures xs[j] == xi <==> j == i
    {
      if j != i {
        ZeroNotUnit(xs[j], xi);
      }
    }
    forall j | 0 <= j < |xs| && xs[j] != xi
      ensures Invertible(Sub(xs[j], xi))
    {
    }
    OthersDiffInvertible(xs, xi);
    ProdDiffInvertible(xs[i], xs, i);
    CrossProducts(xs, xi, i);
    var num, den := OthersProduct(xs, xi), OthersDiffProduct(xs, xi);
    var p0, pi := ProdDiff(0, xs, i), ProdDiff(xi, xs, i);
    MulComm(p0, den);
    // num/den == p0/pi, from the cross products num*pi == p0*den
    var r1, r2 := Recip(den), Recip(pi);
    calc {
      Mul(num, r1);
      { MulOne(Mul(num, r1)); }
      Mul(Mul(num, r1), Mul(pi, r2));
      { Mul4Swap(num, r1, pi, r2); }
      Mul(Mul(num, pi), Mul(r1, r2));
      Mul(Mul(p0, den), Mul(r1, r2));
      { MulComm(r1, r2); }
      Mul(Mul(p0, den), Mul(r2, r1));
      { Mul4Swap(p0, den, r2, r1); }
      Mul(Mul(p0, r2), Mul(den, r1));
      { MulOne(Mul(p0, r2)); }
      Mul(p0, r2);
    }
  }

  /** Unit differences force distinct entries. */
  lemma ZeroNotUnit(x: Scalar, y: Scalar)
    requires Invertible(Sub(x, y))
    ensures x != y
  {
  }

  /** The interpolating values recover the constant term: for a polynomial f
      with at most |xs| coefficients, Σ_i λ_i · f(x_i) == f(0). */
  lemma InterpolatingValuesRecoverConstant(xs: seq<NonZeroScalar>, lambdas: seq<Scalar>, c: seq<Scalar>)
    requires UnitDiffs(xs) && |c| <= |xs| && |lambdas| == |xs|
    requires forall i :: 0 <= i < |xs| ==> DeriveInterpolatingValue(xs, xs[i]) == Ok(lambdas[i])
    ensures Weighted(seq(|xs|, i requires 0 <= i < |xs| => Eval(c, xs[i])), lambdas, |xs|) == Eval(c, 0)
  {
    var ys := seq(|xs|, i requires 0 <= i < |xs| => Eval(c, xs[i]));
    forall i | 0 <= i < |xs|
      ensures lambdas[i] == Bases(xs)[i]
    {
      DeriveMatchesBasis(xs, i);
    }
    assert lambdas == Bases(xs);
    Interpolation(xs, ys, c);
  }

  // ---------------------------------------------------------------------------
  // encode_group_commitment_list

  /** Width of a compressed Edwards point, and of a serialised scalar. */
  const POINT_BYTES: nat := 32

  /** One entry: ser(id) ‖ ser(D) ‖ ser(E). */
  function EncodeCommitment(enc: Element -> seq<Byte>, c: Commitment): seq<Byte> {
    ScalarBytes(c.id) + enc(c.hiding) + enc(c.binding)
  }

  /** `encode_group_commitment_list`: the entries' encodings, in list order
      (the list is not sorted first). */
  function EncodeCommitmentList(enc: Element -> seq<Byte>, cs: seq<Commitment>): (r: seq<Byte>)
    ensures |cs| == 0 ==> r == []
    ensures Compressed(enc) ==> |r| == 96 * |cs|
  {
    if |cs| == 0 then []
    else EncodeCommitmentList(enc, cs[..|cs| - 1]) + EncodeCommitment(enc, cs[|cs| - 1])
  }

  /** A point encoding of fixed width 32, as compressed Edwards points are. */
  ghost predicate Compressed(enc: Element -> seq<Byte>) {
    forall p :: |enc(p)| == POINT_BYTES
  }

  /** A point encoding that tells distinct points apart. */
  ghost predicate Injective(enc: Element -> seq<Byte>) {
    forall p, q :: enc(p) == enc(q) ==> p == q
  }

  /** Encoding is a homomorphism from list concatenation to byte concatenation. */
  lemma {:induction false} EncodeAppend(enc: Element -> seq<Byte>, a: seq<Commitment>, b: seq<Commitment>)
    ensures EncodeCommitmentList(enc, a + b) == EncodeCommitmentList(enc, a) + EncodeCommitmentList(enc, b)
    decreases |b|
  {
    if |b| == 0 {
      assert a + b == a;
    } else {
      var n, ab, init := |b|, a + b, b[..|b| - 1];
      assert ab[..|ab| - 1] == a + init;
      assert ab[|ab| - 1] == b[n - 1];
      EncodeAppend(enc, a, init);
      var x, y, z := EncodeCommitmentList(enc, a), EncodeCommitmentList(enc, init), EncodeCommitment(enc, b[n - 1]);
      assert EncodeCommitmentList(enc, ab) == (x + y) + z;
      assert EncodeCommitmentList(enc, b) == y + z;
      assert (x + y) + z == x + (y + z);
    }
  }

  /** With compressed points every entry takes 96 bytes, and entry k sits at
      bytes 96k .. 96k + 96 of the encoding. */
  lemma {:induction false} EncodeLayout(enc: Element -> seq<Byte>, cs: seq<Commitment>)
    requires Compressed(enc)
    ensures |EncodeCommitmentList(enc, cs)| == 96 * |cs|
    ensures forall k :: 0 <= k < |cs| ==>
      EncodeCommitmentList(enc, cs)[96 * k .. 96 * k + 96] == EncodeCommitment(enc, cs[k])
    decreases |cs|
  {
    if |cs| > 0 {
      var n := |cs|;
      EncodeLayout(enc, cs[..n - 1]);
      var pre, last := EncodeCommitmentList(enc, cs[..n - 1]), EncodeCommitment(enc, cs[n - 1]);
      assert |last| == 96;
      forall k | 0 <= k < n
        ensures (pre + last)[96 * k .. 96 * k + 96] == EncodeCommitment(enc, cs[k])
      {
        if k < n - 1 {
          assert (pre + last)[96 * k .. 96 * k + 96] == pre[96 * k .. 96 * k + 96];
        } else {
          assert (pre + last)[96 * k .. 96 * k + 96] == last;
        }
      }
    }
  }

  /** One entry's encoding determines the entry. */
  lemma EncodeCommitmentInjective(enc: Element -> seq<Byte>, c1: Commitment, c2: Commitment)
    requires Compressed(enc) && Injective(enc)
    requires EncodeCommitment(enc, c1) == EncodeCommitment(enc, c2)
    ensures c1 == c2
  {
    var e1, e2 := EncodeCommitment(enc, c1), EncodeCommitment(enc, c2);
    assert e1[..32] == ScalarBytes(c1.id) && e2[..32] == ScalarBytes(c2.id);
    ScalarBytesInjective(c1.id, c2.id);
    assert e1[32..64] == enc(c1.hiding) && e2[32..64] == enc(c2.hiding);
    assert e1[64..] == enc(c1.binding) && e2[64..] == enc(c2.binding);
  }

  /** With an injective fixed-width point encoding, the encoded list
      determines the list: equal encodings come from equal lists. */
  lemma EncodeListInjective(enc: Element -> seq<Byte>, a: seq<Commitment>, b: seq<Commitment>)
    requires Compressed(enc) && Injective(enc)
    requires EncodeCommitmentList(enc, a) == EncodeCommitmentList(enc, b)
    ensures a == b
  {
    EncodeLayout(enc, a);
    EncodeLayout(enc, b);
    assert |a| == |b|;
    forall k | 0 <= k < |a|
      ensures a[k] == b[k]
    {
      EncodeCommitmentInjective(enc, a[k], b[k]);
    }
  }

  // ---------------------------------------------------------------------------
  // binding_factor_for_participant

  /** Some entry of the list carries identifier id. */
  predicate Bound(bfs: seq<BindingFactor>, id: NonZeroScalar) {
    exists k :: 0 <= k < |bfs| && bfs[k].id == id
  }

  /** `binding_factor_for_participant`: the rho of the first entry with the
      given identifier; failing (the source's `unwrap` on `None`) if none has. */
  function BindingFactorForParticipant(bfs: seq<BindingFactor>, id: NonZeroScalar): (r: Result<Scalar>)
    ensures r.Ok? <==> Bound(bfs, id)
    ensures r.Ok? ==> exists k :: 0 <= k < |bfs| && bfs[k].id == id && r.value == bfs[k].rho
                              && forall j :: 0 <= j < k ==> bfs[j].id != id
    ensures r.Err? ==> r.error == MissingBindingFactor
  {
    if |bfs| == 0 then Err(MissingBindingFactor)
    else if bfs[0].id == id then Ok(bfs[0].rho)
    else
      var r := BindingFactorForParticipant(bfs[1..], id);
      assert Bound(bfs, id) ==> Bound(bfs[1..], id) by {
        if Bound(bfs, id) {
          var k :| 0 <= k < |bfs| && bfs[k].id == id;
          assert bfs[1..][k - 1].id == id;
        }
      }
      if r.Ok? then
        var k :| 0 <= k < |bfs[1..]| && bfs[1..][k].id == id && r.value == bfs[1..][k].rho
                 && forall j :: 0 <= j < k ==> bfs[1..][j].id != id;
        assert bfs[k + 1].id == id;
        r
      else r
  }

  /** The first match wins: any entry with the identifier after position k
      is ignored once position k matches. */
  lemma BindingFactorFirstMatch(bfs: seq<BindingFactor>, id: NonZeroScalar, k: nat)
    requires k < |bfs| && bfs[k].id == id
    requires forall j :: 0 <= j < k ==> bfs[j].id != id
    ensures BindingFactorForParticipant(bfs, id) == Ok(bfs[k].rho)
  {
    var r := BindingFactorForParticipant(bfs, id);
    assert Bound(bfs, id);
    var k' :| 0 <= k' < |bfs| && bfs[k'].id == id && r.value == bfs[k'].rho
              && forall j :: 0 <= j < k' ==> bfs[j].id != id;
    assert k' == k;
  }

  // ---------------------------------------------------------------------------
  // compute_binding_factors

  /** The shared prefix of every rho input: enc(group_pk) ‖ H4(msg) ‖ H5(encoded list). */
  function RhoInputPrefix(p: Primitives, groupPk: Element, cs: seq<Commitment>, msg: seq<Byte>): seq<Byte> {
    p.encodePoint(groupPk) + H4(p.sha, msg) + H5(p.sha, EncodeCommitmentList(p.encodePoint, cs))
  }

  /** The rho input of one participant: the prefix followed by ser(id). */
  function RhoInput(prefix: seq<Byte>, id: NonZeroScalar): (r: seq<Byte>)
    ensures |r| == |prefix| + 32 && r[..|prefix|] == prefix
    ensures FromLe(r[|prefix|..]) == id
  {
    ScalarBytesRoundTrip(id);
    assert (prefix + ScalarBytes(id))[|prefix|..] == ScalarBytes(id);
    prefix + ScalarBytes(id)
  }

  /** rho for one identifier: H1(rho input) reduced modulo L. */
  function BindingRho(p: Primitives, prefix: seq<Byte>, id: NonZeroScalar): Scalar {
    FromLeBytesModOrder(H1(p.sha, RhoInput(prefix, id)))
  }

  /** `compute_binding_factors`: one factor per commitment, in input order,
      with the identifier copied and rho from `BindingRho`. */
  function ComputeBindingFactors(p: Primitives, groupPk: Element, cs: seq<Commitment>, msg: seq<Byte>)
    : (r: seq<BindingFactor>)
    ensures |r| == |cs|
    ensures forall k :: 0 <= k < |cs| ==> r[k].id == cs[k].id
    ensures forall k :: 0 <= k < |cs| ==>
      r[k].rho == BindingRho(p, RhoInputPrefix(p, groupPk, cs, msg), cs[k].id)
  {
    var prefix := RhoInputPrefix(p, groupPk, cs, msg);
    seq(|cs|, k requires 0 <= k < |cs| => BindingFactor(cs[k].id, BindingRho(p, prefix, cs[k].id)))
  }

  /** Distinct identifiers give distinct SHA-512 inputs to H1. */
  lemma RhoInputsDistinct(prefix: seq<Byte>, id1: NonZeroScalar, id2: NonZeroScalar)
    requires id1 != id2
    ensures Tagged(Rho, RhoInput(prefix, id1)) != Tagged(Rho, RhoInput(prefix, id2))
  {
    if Tagged(Rho, RhoInput(prefix, id1)) == Tagged(Rho, RhoInput(prefix, id2)) {
      TaggedInjective(Rho, RhoInput(prefix, id1), Rho, RhoInput(prefix, id2));
    }
  }

  /** Looking a participant up in freshly computed binding factors returns
      that participant's rho, even when identifiers repeat: the rho depends
      only on the identifier. */
  lemma LookupComputed(p: Primitives, groupPk: Element, cs: seq<Commitment>, msg: seq<Byte>, i: nat)
    requires i < |cs|
    ensures BindingFactorForParticipant(ComputeBindingFactors(p, groupPk, cs, msg), cs[i].id)
         == Ok(BindingRho(p, RhoInputPrefix(p, groupPk, cs, msg), cs[i].id))
  {
    var bfs := ComputeBindingFactors(p, groupPk, cs, msg);
    assert bfs[i].id == cs[i].id;
    var r := BindingFactorForParticipant(bfs, cs[i].id);
    var k :| 0 <= k < |bfs| && bfs[k].id == cs[i].id && r.value == bfs[k].rho
             && forall j :: 0 <= j < k ==> bfs[j].id != cs[i].id;
    assert cs[k].id == cs[i].id;
  }

  // ---------------------------------------------------------------------------
  // compute_group_commitment

  /** One participant's contribution: D + E·rho. */
  function CommitmentShare(c: Commitment, rho: Scalar): Element {
    Plus(c.hiding, Scale(c.binding, rho))
  }

  /** Every commitment's identifier has a binding factor. */
  ghost predicate AllBound(cs: seq<Commitment>, bfs: seq<BindingFactor>) {
    forall k :: 0 <= k < |cs| ==> Bound(bfs, cs[k].id)
  }

  /** A list is bound exactly when its prefix and its last entry are. */
  lemma AllBoundLast(cs: seq<Commitment>, bfs: seq<BindingFactor>)
    requires |cs| > 0
    ensures AllBound(cs, bfs) <==> AllBound(cs[..|cs| - 1], bfs) && Bound(bfs, cs[|cs| - 1].id)
  {
    var pre := cs[..|cs| - 1];
    assert forall k :: 0 <= k < |pre| ==> pre[k] == cs[k];
  }

  lemma AllBoundAppend(a: seq<Commitment>, b: seq<Commitment>, bfs: seq<BindingFactor>)
    requires AllBound(a, bfs) && AllBound(b, bfs)
    ensures AllBound(a + b, bfs)
  {
    var ab := a + b;
    forall k | 0 <= k < |ab| ensures Bound(bfs, ab[k].id) {
      if k >= |a| { assert ab[k] == b[k - |a|]; }
    }
  }

  /** `compute_group_commitment`: Σ (D_i + E_i·rho_i), each rho looked up by
      identifier, accumulated from the identity in list order. */
  function ComputeGroupCommitment(cs: seq<Commitment>, bfs: seq<BindingFactor>): (r: Result<Element>)
    ensures r.Ok? <==> AllBound(cs, bfs)
    ensures r.Err? ==> r.error == MissingBindingFactor
    ensures |cs| == 0 ==> r == Ok(Identity)
  {
    if |cs| == 0 then Ok(Identity)
    else
      var n := |cs|;
      AllBoundLast(cs, bfs);
      var acc :- ComputeGroupCommitment(cs[..n - 1], bfs);
      var rho :- BindingFactorForParticipant(bfs, cs[n - 1].id);
      Ok(Plus(acc, CommitmentShare(cs[n - 1], rho)))
  }

  /** Given the rho each identifier looks up to, the group commitment is the
      sum of the participants' contributions, in discrete-log terms. */
  lemma {:induction false} GroupCommitmentSum(cs: seq<Commitment>, bfs: seq<BindingFactor>, rhos: seq<Scalar>)
    requires |rhos| == |cs|
    requires forall k :: 0 <= k < |cs| ==> BindingFactorForParticipant(bfs, cs[k].id) == Ok(rhos[k])
    ensures ComputeGroupCommitment(cs, bfs)
         == Ok(Element(Sum(seq(|cs|, k requires 0 <= k < |cs| => CommitmentShare(cs[k], rhos[k]).dlog))))
    decreases |cs|
  {
    var n := |cs|;
    var ls := seq(n, k requires 0 <= k < n => CommitmentShare(cs[k], rhos[k]).dlog);
    if n > 0 {
      var init, rinit := cs[..n - 1], rhos[..n - 1];
      GroupCommitmentSum(init, bfs, rinit);
      assert ls[..n - 1] == seq(n - 1, k requires 0 <= k < n - 1 => CommitmentShare(init[k], rinit[k]).dlog);
    }
  }

  /** The group commitment of a concatenation adds the two parts' commitments. */
  lemma {:induction false} GroupCommitmentAppend(a: seq<Commitment>, b: seq<Commitment>, bfs: seq<BindingFactor>)
    requires AllBound(a, bfs) && AllBound(b, bfs)
    ensures ComputeGroupCommitment(a + b, bfs).Ok?
    ensures ComputeGroupCommitment(a + b, bfs).value
         == Plus(ComputeGroupCommitment(a, bfs).value, ComputeGroupCommitment(b, bfs).value)
    decreases |b|
  {
    AllBoundAppend(a, b, bfs);
    if |b| == 0 {
      assert a + b == a;
      PlusIdentity(ComputeGroupCommitment(a, bfs).value);
    } else {
      var n := |b|;
      assert (a + b)[..|a + b| - 1] == a + b[..n - 1];
      AllBoundLast(b, bfs);
      GroupCommitmentAppend(a, b[..n - 1], bfs);
      var rho := BindingFactorForParticipant(bfs, b[n - 1].id).value;
      PlusAssoc(ComputeGroupCommitment(a, bfs).value, ComputeGroupCommitment(b[..n - 1], bfs).value,
                CommitmentShare(b[n - 1], rho));
    }
  }

  // ---------------------------------------------------------------------------
  // compute_challenge

  /** The challenge input: enc(R) ‖ enc(group_pk) ‖ msg. */
  function ChallengeInput(enc: Element -> seq<Byte>, r: Element, groupPk: Element, msg: seq<Byte>): seq<Byte> {
    enc(r) + enc(groupPk) + msg
  }

  /** `compute_challenge`: H2(challenge input) reduced modulo L. */
  function ComputeChallenge(p: Primitives, r: Element, groupPk: Element, msg: seq<Byte>): Scalar {
    FromLeBytesModOrder(H2(p.sha, ChallengeInput(p.encodePoint, r, groupPk, msg)))
  }

  /** With an injective fixed-width point encoding the challenge input
      determines R, the group key and the message. */
  lemma ChallengeInputInjective(enc: Element -> seq<Byte>, r1: Element, pk1: Element, m1: seq<Byte>,
                                r2: Element, pk2: Element, m2: seq<Byte>)
    requires Compressed(enc) && Injective(enc)
    requires ChallengeInput(enc, r1, pk1, m1) == ChallengeInput(enc, r2, pk2, m2)
    ensures r1 == r2 && pk1 == pk2 && m1 == m2
  {
    var c1, c2 := ChallengeInput(enc, r1, pk1, m1), ChallengeInput(enc, r2, pk2, m2);
    assert c1[..32] == enc(r1) && c2[..32] == enc(r2);
    assert c1[32..64] == enc(pk1) && c2[32..64] == enc(pk2);
    assert c1[64..] == m1 && c2[64..] == m2;
  }
}
