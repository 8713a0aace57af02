# FROST over ed25519, modelled in Dafny

This project models the algebraic core of `blind-threshold-sig`. That crate is a
FROST threshold-Schnorr implementation (RFC 9591) over the ed25519 scalar field,
with a trusted Shamir dealer and an experimental "blind" signer variant. A
blind signer has binding nonce e = 0. The model covers four source files:
`ciphersuite.rs`, `shamir.rs`, `helper.rs` and `frost.rs`. It also covers the
signing session that `main.rs` walks through.

Modules, in dependency order:

| module | file | models |
|---|---|---|
| `Wrappers` | wrappers.dfy | `Result`/`Option`; the threshold `assert!`s, the `NonZeroScalar::new` panic, `inverse().unwrap()` and division by a non-unit, and the binding-factor `find().unwrap()` become an `Err` naming its reason |
| `Field` | field.dfy | `ark_ed25519::Fr`: integers modulo L; `inverse()` by extended Euclid; sums |
| `Polynomial` | polynomial.dfy | evaluation as `shamir_split` accumulates it; Horner; division by (X − a) |
| `Lagrange` | lagrange.dfy | Lagrange basis values at 0, partition of unity, interpolation of f(0) |
| `Bytes` | bytes.dfy | little-endian byte codings, `serialize_compressed` of a scalar, `from_le_bytes_mod_order` |
| `Group` | group.dfy | points of the prime-order subgroup, by discrete logarithm with respect to a fixed base |
| `Ciphersuite` | ciphersuite.dfy | `CONTEXT_STRING` and the exact preimages of H1..H5 |
| `Shamir` | shamir.dfy | `ShamirShare`, `shamir_split`, `shamir_reconstruct` and the crate's test |
| `Helper` | helper.dfy | `NonZeroScalar`, `nonce_generate`, `derive_interpolating_value`, commitment-list encoding, binding factors, group commitment, challenge |
| `FrostProtocol` | frost.dfy | `FrostSigner::{new, store_rho, sign}`, `Frost::{signature_share, update_binding_factors, signature_aggregate, verify}` |
| `Session` | session.dfy | the six steps of `main.rs`, and the theorem that an honest session's signature verifies |

Design choices:

- **Scalars.** A scalar is an `int` in [0, L). L is the literal from the
  ed25519 specification.
- **Inverses.** `Inverse` runs the extended Euclidean algorithm. It succeeds
  exactly on the units, so no result depends on L being prime.
- **Primality.** Primality is a published fact that the model does not prove.
  The few statements that need it take `PrimeModulus()` as a hypothesis. All
  others take "the pairwise differences of the identifiers are invertible"
  (`UnitDiffs`) as their hypothesis. For the identifiers 1..5 of the
  demonstration, this is proved outright from explicit inverses.
- **Group elements.** A group element is its discrete logarithm with respect to
  a fixed base. So `g * k` is `Scale(g, k)`, `p + q` is `Plus(p, q)`, and
  equality of points is equality of logarithms.
- **External functions.** SHA-512 and the compressed encoding of points are
  function parameters, bundled as `Primitives(sha, encodePoint)`. The byte
  strings fed to them are modelled exactly.
- **Randomness.** Every random source is a parameter:
  - `rand::rng` becomes 32 bytes;
  - `test_rng` becomes a stream `Draws`;
  - `StdRng::from_seed` becomes a `SeededRng` from a 32-byte seed to a stream;
  - `Element::rand` becomes the generator `g`.

Behaviour kept exactly as the code has it:

- **Undocumented panics.** The doc comment of `derive_interpolating_value`
  promises panics when `x_i` is absent or repeated. The code never performs
  them: it skips every entry equal to `x_i`. `DeriveSkipsOwnEntries` and
  `DeriveAlone` state what happens instead.
- **Commitment-list order.** Commitment lists are encoded and processed in the
  order given. Nothing sorts them, although RFC 9591 orders them by identifier.
  The encoding and the binding factors therefore depend on list order.
- **Group commitment.** `compute_group_commitment` carries a "TODO: fix". The
  model follows its loop as written: Σ (D_i + E_i·ρ_i), each ρ_i looked up by
  identifier.
- **Signer nonces.** A signer's nonces come from a generator seeded with its
  index, not from `nonce_generate`. The nonces are therefore a function of the
  index alone (`NoncesFixedByIndex`).
- **Where RFC 9591 and the code differ:**
  - section 5.1 of RFC 9591 derives both of a signer's nonces with
    `nonce_generate`, while `FrostSigner::new` (src/frost.rs:38-64) draws
    them from a `StdRng` seeded with the signer's index;
  - section 4.3 of RFC 9591 orders the commitment list by identifier, while
    `encode_group_commitment_list` (src/helper.rs:82-113) encodes it in the
    order given.

  The model follows the code in both cases.

## Model

| member | source | states |
|---|---|---|
| Field.Inverse | src/shamir.rs:66 | `inverse()` is present exactly when the scalar is a unit, and it is then the unique v with a·v = 1 |
| Field.SumPermutation | src/frost.rs:141-149 | the in-order field sum of a sequence does not change under any permutation (equal multisets) |
| Field.SumAppend | src/frost.rs:141-149 | summing a concatenation is the sum of the two partial sums |
| Polynomial.Eval | src/shamir.rs:26-29 | the share value Σ c_j·x^j accumulated from 0; no coefficients give 0 and a single coefficient gives itself at every x |
| Polynomial.Horner | src/shamir.rs:26-29 | the accumulated Σ coeff_j·x^j equals c0 + x·(tail)(x) |
| Polynomial.EvalAtZero | src/shamir.rs:26-29 | a polynomial's value at 0 is its constant coefficient (0 for no coefficients) |
| Polynomial.DivisionIdentity | src/shamir.rs:26-29 | for any a and x, c(x) = (x − a)·q(x) + c(a) with q the synthetic quotient |
| Lagrange.PartitionOfUnity | src/shamir.rs:49-66 | over points with invertible differences, the basis values Π(0 − x_j)/(x_i − x_j) sum to 1 |
| Lagrange.Interpolation | src/shamir.rs:38-71 | over points with invertible differences and a polynomial of at most as many coefficients, Σ y_i·L_i(0) equals the polynomial's value at 0 |
| Lagrange.DistinctUnitDiffs | src/shamir.rs:62-66 | in a prime field, distinct points have invertible differences |
| Bytes.FromLeOfLeBytes | src/frost.rs:40-41 | reading back the n little-endian bytes of a value below 256^n gives the value |
| Bytes.LeBytesOfFromLe | src/frost.rs:40-41 | re-encoding the value of a byte string at its width gives the bytes back |
| Bytes.ScalarBytesRoundTrip | src/helper.rs:34-45 | `from_le_bytes_mod_order` undoes the 32-byte serialisation of a scalar |
| Bytes.ScalarBytesUnique | src/helper.rs:150-154 | the 32-byte serialisation is the only 32-byte string whose little-endian value is the scalar |
| Bytes.ScalarBytesInjective | src/helper.rs:150-154 | distinct scalars serialise to distinct bytes |
| Ciphersuite.ContextBytes | src/ciphersuite.rs:5 | the context string is the 23 ASCII bytes of "FROST-ED25519-SHA512-v1" |
| Ciphersuite.H1 | src/ciphersuite.rs:7-16 | SHA-512 of the context string, the bytes of "rho", then m |
| Ciphersuite.H2 | src/ciphersuite.rs:18-25 | SHA-512 of m alone, with no context string and no tag |
| Ciphersuite.H3 | src/ciphersuite.rs:27-36 | SHA-512 of the context string, the bytes of "nonce", then m |
| Ciphersuite.H4 | src/ciphersuite.rs:38-47 | SHA-512 of the context string, the bytes of "msg", then m |
| Ciphersuite.H5 | src/ciphersuite.rs:49-58 | SHA-512 of the context string, the bytes of "com", then m |
| Ciphersuite.TagBytes | src/ciphersuite.rs:11-53 | the tags are the ASCII bytes of "rho", "nonce", "msg" and "com"; their first bytes differ |
| Ciphersuite.ParseTaggedRoundTrip | src/ciphersuite.rs:7-58 | the preimage context ‖ tag ‖ m of H1, H3, H4 and H5 parses back to its tag and m |
| Ciphersuite.TaggedInjective | src/ciphersuite.rs:5-58 | two tagged preimages coincide only if both tags and messages do: H1, H3, H4 and H5 are domain-separated |
| Ciphersuite.H2NotSeparated | src/ciphersuite.rs:18-25 | H2 hashes m alone, so H2(context ‖ tag ‖ m) equals H1, H3, H4 or H5 of m |
| Shamir.Coefficients | src/shamir.rs:16-20 | t coefficients: the secret first, then the first t − 1 scalars of the stream in order |
| Shamir.Split | src/shamir.rs:10-36 | fails unless 2 ≤ t ≤ n (t > n checked first); otherwise n shares in order with indices 1..n, share i the value at i of [secret, draw_0, …, draw_{t−2}] |
| Shamir.SplitSharesOnPolynomial | src/shamir.rs:17-35 | all shares lie on one polynomial of exactly t coefficients whose value at 0 is the secret |
| Shamir.LagrangeCoefficient | src/shamir.rs:49-66 | the per-share coefficient exists exactly when its denominator is a unit, and is then the Lagrange basis value at 0; else `NotInvertible` |
| Shamir.Reconstruct | src/shamir.rs:38-71 | succeeds exactly when every denominator is a unit, and then returns the Lagrange combination Σ y_i·L_i(0) |
| Shamir.ReconstructTrivial | src/shamir.rs:38-71 | no shares give 0; one share gives its own value |
| Shamir.ReconstructDuplicateIndex | src/shamir.rs:62-66 | two shares with one index make reconstruction fail with `NotInvertible` |
| Shamir.ReconstructOk | src/shamir.rs:38-71 | with invertible index differences reconstruction succeeds |
| Shamir.ReconstructOkIffDistinct | src/shamir.rs:38-71 | in a prime field reconstruction succeeds exactly when the indices are distinct |
| Shamir.ReconstructRecoversSecret | src/shamir.rs:10-71 | any t or more shares of one split, with invertible index differences, reconstruct the secret |
| Shamir.ReconstructRecoversSecretPrime | src/shamir.rs:10-71 | in a prime field, any t or more distinct shares of one split reconstruct the secret |
| Shamir.ShamirTestVector | src/shamir.rs:73-84 | splitting 42 with t = 3, n = 5 gives five shares whose first three reconstruct 42, for every coefficient stream |
| Helper.NewNonZeroScalar | src/helper.rs:13-19 | fails with `ZeroScalar` exactly on 0; otherwise wraps the value unchanged |
| Helper.NonceMessage | src/helper.rs:34-41 | the nonce preimage is 64 bytes: the 32 random bytes, then 32 bytes whose little-endian value is the secret itself, which by `ScalarBytesUnique` are its canonical serialisation |
| Helper.NonceInputInjective | src/helper.rs:28-46 | distinct (random, secret) pairs give distinct H3 preimages |
| Helper.DeriveInterpolatingValue | src/helper.rs:56-72 | succeeds exactly when the product of the differences (x_j − x_i) over entries ≠ x_i is a unit; the result times that product is Π x_j |
| Helper.OthersDiffInvertible | src/helper.rs:63-69 | if every difference x_j − x_i with x_j ≠ x_i is a unit, so is their product, the denominator |
| Helper.DeriveNeverFails | src/helper.rs:48-72 | in a prime field the division never fails, for any list, whether or not x_i occurs in it |
| Helper.DeriveSkipsOwnEntries | src/helper.rs:63-66 | appending x_i once or twice does not change the result: no panic on repeated x_i |
| Helper.DeriveAlone | src/helper.rs:60-71 | a list holding only x_i (or nothing) gives 1 |
| Helper.DeriveMatchesBasis | src/helper.rs:56-72 | for a member of a list with invertible differences, Π x_j/(x_j − x_i) equals reconstruction's Π(0 − x_j)/(x_i − x_j) |
| Helper.InterpolatingValuesRecoverConstant | src/helper.rs:48-72 | Σ λ_i·f(x_i) = f(0) for a polynomial of at most |xs| coefficients |
| Helper.EncodeCommitmentList | src/helper.rs:82-113 | the empty list encodes to no bytes; with 32-byte point encodings a list of k commitments encodes to 96·k bytes |
| Helper.EncodeAppend | src/helper.rs:82-113 | encode(a ++ b) = encode(a) ++ encode(b) |
| Helper.EncodeLayout | src/helper.rs:82-113 | with 32-byte points the encoding is 96 bytes per entry, entry k at bytes 96k .. 96k + 96 as ser(id) ‖ ser(D) ‖ ser(E) |
| Helper.EncodeCommitmentInjective | src/helper.rs:85-107 | with an injective point encoding, one entry's bytes determine the entry |
| Helper.EncodeListInjective | src/helper.rs:82-113 | with an injective point encoding, the bytes determine the whole list, order included |
| Helper.BindingFactorForParticipant | src/helper.rs:117-126 | fails with `MissingBindingFactor` exactly when no entry has the identifier; otherwise returns the ρ of the first matching entry |
| Helper.BindingFactorFirstMatch | src/helper.rs:117-126 | the entry found is the first whose identifier matches |
| Helper.RhoInput | src/helper.rs:150-156 | ρ's preimage is the shared prefix followed by 32 bytes whose little-endian value is the identifier itself, by `ScalarBytesUnique` its canonical serialisation |
| Helper.ComputeBindingFactors | src/helper.rs:132-163 | one factor per commitment, in input order, identifiers copied, ρ_k = H1(enc(pk) ‖ H4(msg) ‖ H5(encode(list)) ‖ ser(id_k)) mod L |
| Helper.RhoInputsDistinct | src/helper.rs:149-157 | distinct identifiers give distinct H1 preimages |
| Helper.LookupComputed | src/helper.rs:117-163 | looking up a listed identifier among the computed factors returns its own ρ |
| Helper.ComputeGroupCommitment | src/helper.rs:165-180 | fails with `MissingBindingFactor` exactly when some identifier has no factor; the empty list gives the identity |
| Helper.GroupCommitmentSum | src/helper.rs:165-180 | when every lookup succeeds, R is the point whose logarithm is Σ (D_i + E_i·ρ_i) |
| Helper.GroupCommitmentAppend | src/helper.rs:172-177 | the commitment of a concatenation is the sum of the two parts' commitments |
| Helper.ChallengeInputInjective | src/helper.rs:182-200 | with an injective 32-byte point encoding, the H2 preimage enc(R) ‖ enc(pk) ‖ msg determines R, pk and msg |
| FrostProtocol.Seed | src/frost.rs:39-41 | the seed is the 8 little-endian bytes of the index followed by 24 zero bytes |
| FrostProtocol.SeedInjective | src/frost.rs:39-42 | distinct indices give distinct seeds |
| FrostProtocol.NewSigner | src/frost.rs:38-64 | identifier = index, x kept, ρ = 0, d the first draw of the index-seeded stream, e the second or 0 when blind, D = g·d and E = g·e |
| FrostProtocol.BlindCommitsIdentity | src/frost.rs:49-54 | a blind signer has e = 0 and E the identity |
| FrostProtocol.NoncesFixedByIndex | src/frost.rs:39-52 | nonces and commitments depend on the index only, not on the secret share |
| FrostProtocol.StoreRho | src/frost.rs:66-68 | sets ρ and leaves identifier, x, d, e and the commitment unchanged |
| FrostProtocol.StoreRhoLastWins | src/frost.rs:66-68 | storing twice keeps the second value; storing the current value changes nothing |
| FrostProtocol.Sign | src/frost.rs:70-76 | fails with `ZeroScalar` on identifier 0 and with `NotInvertible` when λ's denominator is not a unit; succeeds otherwise, and then (z − (d + ρ·e))·Π(x_j − x_i) = Π x_j · x · c, so z − d − ρ·e is λ·x·c for λ = Π x_j / Π(x_j − x_i) |
| FrostProtocol.SignAtBasis | src/frost.rs:70-76 | for the k-th of identifiers with invertible differences, the share is exactly d + ρ·e + L_k(0)·x·c, with L_k(0) the Lagrange basis value that reconstruction uses |
| FrostProtocol.SignShareEquation | src/frost.rs:70-76 | g·z = D + E·ρ + (g·x)·(λ·c): each share satisfies its verification equation |
| FrostProtocol.BlindShareIgnoresRho | src/frost.rs:70-76 | a blind signer's share does not depend on the stored ρ |
| FrostProtocol.BlindNonceReuseRevealsShare | src/frost.rs:70-76 | a blind signer's shares for two challenges with λ·(c1 − c2) a unit reveal x: (z1 − z2)/(λ·(c1 − c2)) = x |
| FrostProtocol.SignersFor | src/frost.rs:112-121 | one signer per share, in order, blind exactly when its index exceeds the threshold |
| FrostProtocol.SignatureShare | src/frost.rs:105-128 | succeeds exactly when 2 ≤ t ≤ n with the split's error otherwise; n signers with identifiers 1..n on the polynomial dealt from the key stream's first draw and the coefficient stream, group key g·sk, ρ = 0, e = 0 above the threshold |
| FrostProtocol.DealFrom | src/frost.rs:105-128 | the same dealing from an arbitrary key and an independent coefficient stream |
| FrostProtocol.SharedStreamRepeatsKey | src/frost.rs:106-111 | when the coefficient stream starts with the key's draw, as under a deterministic `test_rng`, the first random coefficient equals the key |
| FrostProtocol.OneShareRevealsKey | src/frost.rs:105-128 | with t = 2 and a deterministic `test_rng`, signer 1's share alone determines the group secret key: x_1·(L + 1)/2 = sk |
| FrostProtocol.OneShareHidesKey | src/frost.rs:105-128 | with an independent stream and t = 2, every other key has a stream giving signer 1 the same share |
| FrostProtocol.UpdateSigners | src/frost.rs:130-138 | succeeds exactly when every identifier is non-zero and bound; each signer then holds its own lookup's ρ and nothing else changes |
| FrostProtocol.UpdateBindingFactors | src/frost.rs:130-138 | the same on a `Frost`, with generator and group key unchanged |
| FrostProtocol.SignatureAggregate | src/frost.rs:141-149 | the field sum of the shares: no shares aggregate to 0 and one share to itself; with AggregatePermutation and AggregateAppend, it is the sum Σ z_i in any order |
| FrostProtocol.AggregatePermutation | src/frost.rs:141-149 | the aggregate does not depend on the order of the shares |
| FrostProtocol.AggregateAppend | src/frost.rs:141-149 | aggregating a concatenation adds the two aggregates |
| FrostProtocol.Verify | src/frost.rs:151-156 | accepts exactly when g·s = R + pk·c holds, read on discrete logarithms |
| FrostProtocol.VerifyAcceptsResponse | src/frost.rs:151-156 | Schnorr completeness: for pk = g·x, the response k + x·c to R = g·k verifies for every challenge c |
| FrostProtocol.VerifyUniqueResponse | src/frost.rs:151-156 | for a generator of invertible logarithm, at most one response verifies for given R and c |
| Session.CommitmentList | src/main.rs:61-70 | step 2 fails with `ZeroScalar` exactly when some identifier is 0; otherwise one (id, D, E) per signer, in order |
| Session.XCoordinates | src/main.rs:78-82 | fails exactly when some identifier is 0; otherwise the identifiers in signer order |
| Session.SignAll | src/main.rs:85-89 | succeeds exactly when every signer's `sign` does, and then lists their shares in order |
| Session.RunSession | src/main.rs:56-101 | a completed session's challenge is H2(enc(R) ‖ enc(pk) ‖ msg) mod L for the signature's R; when it completes is stated by `Session.RunSessionOutcome`, and that it verifies by `Session.HonestSessionVerifies` |
| Session.RunSessionOutcome | src/main.rs:61-100 | a session completes exactly when every identifier is non-zero and every signer's interpolation denominator is invertible; the binding-factor lookups and the group commitment never fail; a failure is `ZeroScalar` at the commitment list or otherwise `NotInvertible` |
| Session.SignAllOutcome | src/main.rs:85-89 | signers with non-zero identifiers all sign exactly when every interpolation denominator is invertible, and otherwise fail with `NotInvertible` |
| Session.HonestSessionVerifies | src/main.rs:56-101 | signers on one polynomial of at most as many coefficients, with non-zero identifiers of invertible differences and honest commitments, complete the session and verify |
| Session.DealtSessionVerifies | src/main.rs:56-101 | in a prime field, all n signers of `signature_share(t, n)` produce a verifying signature for every key, stream, hash and message |
| Session.DealtSubsetVerifies | src/frost.rs:151-156 | in a prime field, any t or more distinct dealt signers, in any order, produce a verifying signature |
| Session.FirstFiveIndicesUnitDiffs | src/main.rs:56 | the identifiers 1..5 have invertible differences, by explicit inverses |
| Session.DemonstrationVerifies | src/main.rs:56-101 | `signature_share(3, 5)` followed by a session of all five signers verifies, with no hypothesis on the modulus, the streams, the hash or the message |

## Left out

- SHA-512 and the compressed encoding of points are parameters. Digest width
  and collision behaviour are not modelled, and no result depends on them
  except where `Compressed`/`Injective` are stated as hypotheses.
- The edwards25519 curve is represented by discrete logarithms with respect to
  a fixed base. Point arithmetic, projective coordinates and the point
  encoding are library code.
- That L is prime is not proved. Results that need it say `PrimeModulus()`.
- The random sources are parameters: `rand::rng` in `nonce_generate`,
  `test_rng` in `shamir_split` and `signature_share`, `StdRng::from_seed` in
  `FrostSigner::new` and `Element::rand` for the generator. Their actual
  output streams are not modelled.
- FrostProtocol.SignatureShare: models the two `test_rng()` calls as two
  streams, `keyRng` and `coeffRng`, because ark-std's `test_rng` is not part
  of this model. The leak of the Findings table needs the coefficient stream
  to start with the key's draw. That is exact for a deterministic `test_rng`
  (`DETERMINISTIC_TEST_RNG=1`, or ark-std without `std`). With a per-call
  random seed the dealing is `DealFrom` with an independent stream.
  `DealtSessionVerifies` covers that case, and `OneShareHidesKey` shows that
  one share then no longer identifies the key.
- FrostProtocol.SignatureShare: takes the generator as a separate parameter.
  The code draws it from the same `test_rng` stream right after the key. The
  model keeps only the fact that the key is the stream's first scalar.
- FrostProtocol.SignatureShare: states e = 0 only for signers above the
  threshold. Whether the generator's second draw can be 0 for the others is
  not modelled. `SignersFor` states the exact blind flag.
- Helper.NonceGenerate: has no contract of its own. What it hashes is stated
  by `NonceMessage` and `NonceInputInjective`, and the result is SHA-512
  reduced modulo L.
- Helper.ComputeChallenge: has no contract of its own. Its preimage is stated
  by `ChallengeInputInjective` and its use by `Session.RunSession`, whose completion `Session.RunSessionOutcome` characterises.
- The serialisation `unwrap()`/`expect` calls in src/helper.rs (lines 37,
  93, 97, 100, 140, 154, 192 and 195) are not modelled as failures. Each one
  serialises a scalar or a point into a `Vec`, which cannot fail, so the
  encodings are total functions.
- `usize` is taken to be 64 bits wide (`Field.Usize`), as on the usual
  targets: `FrostSigner::new` writes the index as 8 little-endian seed bytes
  (src/frost.rs:40-41), and `ScalarField::from(i as u64)` keeps it
  unchanged. A 32-bit `usize` is not modelled.
- `FrostSigner::get_identifier`, `get_nonce_commitment`, `NoncePair` and
  `CommitmentPair` are field accessors or unused types. They are represented
  by datatype fields.
- src/schnorr.rs is an unfinished stub over another curve. Only the shape of
  `SchnorrSignature` (R, s) is kept.
- src/collaborative.rs is not part of this model. It is not compiled into the
  crate.
- The printing in src/main.rs is left out, and so is the message literal. The
  message is a parameter of every session lemma.
- Unforgeability and the hiding of fewer than t shares are probabilistic
  security claims. They are not functional properties and are not stated.

## Findings

| source | as written | input that shows it | evidently intended | confidence | as-written member | corrected member |
|---|---|---|---|---|---|---|
| src/frost.rs:106-111 | `signature_share` draws the secret key as the first scalar of `test_rng()`. `shamir_split` then calls `test_rng()` again for its coefficients. When `test_rng` is deterministic (ark-std with `DETERMINISTIC_TEST_RNG=1`, or built without `std`), both calls replay one fixed-seed stream, so a_1 = sk. | `signature_share(2, n)` for any n ≥ 2: signer 1's share is sk + a_1·1 = 2·sk, so one share (fewer than the threshold) gives sk = x_1·(L + 1)/2. The same repetition holds for every t ≥ 2. | the coefficients drawn independently of the key, so that fewer than t shares say nothing about it | not executed; conditional on a deterministic `test_rng`, since a default `std` build of ark-std may seed each call afresh, and its source is not part of this model | FrostProtocol.OneShareRevealsKey | FrostProtocol.OneShareHidesKey |

`FrostProtocol.SharedStreamRepeatsKey` states the repetition for every
threshold when the coefficient stream starts with the key's draw.
`FrostProtocol.DealFrom` is the dealing with an independent coefficient
stream, and the session theorems are stated for it.
`FrostProtocol.SignatureShare` takes the two streams separately, so
`Session.DemonstrationVerifies` holds whichever way ark-std is built.
