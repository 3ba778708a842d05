# Fiat–Shamir NIZK over Sigma protocols, with Schnorr DLOG — a Dafny model

This project models the reference implementation of the ZKProof Sigma-protocol
standard: the abstract Sigma-protocol interface, the Fiat–Shamir transform that
turns any such protocol into a non-interactive proof (batchable and short
encodings), and the Schnorr proof of knowledge of a discrete logarithm. The
model is purely functional.

- `lib.dfy` (module `Lib`): bytes, the 32-byte `Label` and `Challenge` types,
  `LABEL_LENGTH = CHALLENGE_LENGTH = 32`, `DOMSEP` = the ASCII bytes of
  `zkpstd/sigma/0.1`, and `SigmaError` with both variants,
  `VerificationFailed` and `ChallengeConversionFailure`.
- `digest.dfy` (module `Digest`): the hash object as a byte buffer.
  `Update` appends. `FinalizeReset` returns `(H(buffer), empty hasher)`. The
  hash function `H` is a parameter and stays uninterpreted. Every operation
  that slices a digest requires `DigestWide(H)`: every digest has at least 32
  bytes.
- `zq.dfy` (module `Zq`): the prime-order group and its scalar field as Z_q.
  A point is its multiple of the generator. Scalar multiplication is
  `(P*s) % q` and point addition is `(P+Q) % q`. Any int names the point of
  its residue mod q. The Schnorr verifier compares residues, and the
  commitment encoding sees only the canonical representative in [0, q), so
  two ints naming the same point are the same commitment. The module proves that a
  prime q gives no zero divisors, and that scaling by a non-identity point is
  injective.
- `sigma.dfy` (module `Sigma`): the `SigmaProtocol` trait as a datatype of
  pure function values: label, commit, respond, verify, simulate commitment,
  plus the commitment's canonical encoding. Because each field is a total
  pure function, several promises of the interface hold by construction:
  - the label is exactly 32 bytes, the width of a challenge (type `Label`);
  - the verifier takes no randomness and yields only `Ok(())` or a
    `SigmaError`, the same outcome for the same inputs;
  - `simulateCommitment` sees only (challenge, response);
  - `proverResponse` sees only (prover state, challenge).

  The module also states the contracts a protocol may meet: `Complete`,
  `SimulatorReproduces`, and the two "fails only on conversion" predicates.
- `schnorr_dlog.dfy` (module `Schnorr`): `SchnorrInstance`, `ProverState`
  and the protocol operations. The group provider is a parameter `Group`
  with the order q, the partial byte-to-scalar map `fromRandomBytes` and the
  point encoding. The trait's `new` is `Schnorr.New`, which binds the group and
  the instance. `AsSigma` then views the bound protocol through the generic
  interface.
- `nizk_proofs.dfy` (module `Nizk`): the session (`hd`, `hctx`, `ha`, and
  the hasher threaded as a value) and challenge derivation with its exact
  byte layout. The layout is checked against an independent reference
  (`Join` of `ChallengeFields`) that `Split` inverts. Also: batchable and
  short proofs with their verifiers, and generic completeness theorems.
- `schnorr_nizk.dfy` (module `SchnorrNizk`): the Schnorr test scenarios as
  lemmas, for every group order, hash, context, message and nonce.

The random nonce is an explicit argument instead of an RNG. The operations are
modelled in their fallible, nonce-taking form. That is the form
`src/protocols/schnorr_dlog.rs` implements and `src/nizk_proofs.rs` calls. The
trait declaration in `src/interactive_proofs.rs` still shows the older
infallible signatures without an RNG.

Where the source disagrees with itself, the model follows the implementation:
- `SigmaError` in `src/lib.rs` declares only `VerificationFailed`.
  `src/protocols/schnorr_dlog.rs` also uses `ChallengeConversionFailure`, so
  the model has both variants.
- `batchable_proof` and `short_proof` are declared to return a bare proof. The
  response they call is fallible, so the model returns a `Result` and
  propagates `ChallengeConversionFailure`. The Schnorr tests retry on exactly
  that error.
- `short_verify` uses the result of `simulate_commitment` as a commitment.
  Schnorr's `simulate_commitment` is fallible. The model passes the
  simulator's error through, before the hasher is touched.
- Commitment serialisation is unwrapped in the source. The model treats it as
  total.

The run helpers `run_nizk_batched` and `run_nizk_short` that the Schnorr tests
call are not in the source files (the `tests` module of `src/nizk_proofs.rs` is
missing). `SchnorrNizk.RunBatched` and `SchnorrNizk.RunShort` take them to
mean: prove on a session, then verify on a session opened from the same
protocol, hasher and context.

## Model

| member | source | states |
|---|---|---|
| `Lib.AsciiBytes` | src/lib.rs:14 | `DOMSEP` is the byte string `b"zkpstd/sigma/0.1"`: same length, each byte the character's code |
| `Lib.DomsepBytes` | src/lib.rs:14 | `DOMSEP` is exactly the 16 bytes 122 107 112 115 116 100 47 115 105 103 109 97 47 48 46 49 |
| `Digest.Hasher.Update` | src/nizk_proofs.rs:33-34 | `update` appends its data to the bytes pending since the last reset, as at nizk_proofs.rs:33, 40 and 62-77 |
| `Digest.Hasher.FinalizeReset` | src/nizk_proofs.rs:40-41 | `finalize_reset` returns the digest of exactly the pending bytes and leaves nothing pending, as at nizk_proofs.rs:34, 41, 63, 71 and 78 |
| `Sigma.SimulatedHonestTranscriptAccepted` | src/interactive_proofs.rs:7-40 | the trait as the datatype `Sigma`. By construction the label is 32 bytes, the verifier is a deterministic function of (commitment, challenge, response) with outcome `Ok(())` or a `SigmaError`, the response sees only (state, challenge), and the simulator only (challenge, response). `Complete` (the verifier accepts every honest transcript) and `SimulatorReproduces` (the simulator rebuilds the honest commitment) state the rest. The lemma: together they make the simulator succeed on every honest (challenge, response) and make the verifier accept what it rebuilds |
| `Zq.NoZeroDivisors` | src/protocols/schnorr_dlog.rs:131-132 | in a group of prime order q, the product of two scalars nonzero mod q is nonzero mod q |
| `Zq.MulCancel` | src/protocols/schnorr_dlog.rs:90-91 | in a prime-order group, a point other than the identity maps distinct scalars to distinct points |
| `Schnorr.Label` | src/protocols/schnorr_dlog.rs:42-44 | the protocol label is 32 bytes, all zero, whatever the instance |
| `Schnorr.AsSigma` | src/protocols/schnorr_dlog.rs:33-115 | Schnorr DLOG seen as a Sigma protocol. Its label is the Schnorr label. Its response and simulator fail only with `ChallengeConversionFailure`. Every commitment the simulator returns is accepted by its verifier. The commitment encoding depends only on the point |
| `Schnorr.New` | src/protocols/schnorr_dlog.rs:46-50 | the protocol stores its instance (and the group) unchanged |
| `Schnorr.ProverCommit` | src/protocols/schnorr_dlog.rs:52-68 | the state holds exactly (witness, nonce), and the commitment is base·(the state's nonce) |
| `Schnorr.ProverResponse` | src/protocols/schnorr_dlog.rs:70-79 | fails exactly when the challenge is not a scalar, and then only with `ChallengeConversionFailure`; otherwise returns the canonical z with z + c·w = r in the field |
| `Schnorr.Verifier` | src/protocols/schnorr_dlog.rs:81-98 | an unreadable challenge gives `ChallengeConversionFailure`; otherwise `Ok` iff base·z + claim·c equals the commitment as a point (mod q), and every other outcome is `VerificationFailed` |
| `Schnorr.VerifierSeesPoints` | src/protocols/schnorr_dlog.rs:81-98 | commitments naming the same point and responses naming the same scalar get the same verdict |
| `Schnorr.SimulateCommitment` | src/protocols/schnorr_dlog.rs:104-114 | fails on exactly the challenges the verifier cannot read, only with `ChallengeConversionFailure`; otherwise yields a canonical commitment the verifier accepts with that (challenge, response) |
| `Schnorr.SimulatedCommitmentIsUnique` | src/protocols/schnorr_dlog.rs:104-114 | the verifier accepts a commitment for (c, z) if and only if it names the point the simulator returns for (c, z) |
| `Schnorr.ResponseEquation` | src/protocols/schnorr_dlog.rs:78-92 | for claim = base·w and a response made with w', the verifier's left-hand side is base·r + base·c·(w − w') mod q |
| `Schnorr.HonestTranscriptAccepted` | src/protocols/schnorr_dlog.rs:58-97 | completeness: for claim = base·w and any readable challenge, the honest response is accepted against the honest commitment, and simulation rebuilds that commitment |
| `Schnorr.WrongWitnessRejected` | src/protocols/schnorr_dlog.rs:90-97 | for claim = base·w, w' ≠ w, base not the identity and q prime: the w' response is accepted iff the challenge scalar is zero, and otherwise rejected with `VerificationFailed` |
| `Schnorr.TamperedResponseRejected` | src/protocols/schnorr_dlog.rs:90-97 | in a prime-order group with base not the identity, replacing an accepted response by a different scalar gives `VerificationFailed` |
| `Schnorr.CompleteForTrueClaim` | src/protocols/schnorr_dlog.rs:33-114 | for claim = base·w, the protocol meets the generic `Complete` and `SimulatorReproduces` contracts for w |
| `Nizk.New` | src/nizk_proofs.rs:32-52 | hd is the first 32 bytes of H(pending ‖ DOMSEP), which is H(DOMSEP) for a fresh hasher; hctx is the first 32 bytes of H(ctx) whatever came before; ha is the protocol label; the hasher is left empty |
| `Nizk.LabelsDependOnlyOnInputs` | src/nizk_proofs.rs:32-52 | over protocols with the same label, hctx and ha are the same whatever the hashers held, and hd is the same when both hashers start empty |
| `Nizk.Join` | src/nizk_proofs.rs:66-77 | the hash input is three 32-byte fields, four with a message, followed by the commitment bytes |
| `Nizk.Split` | src/nizk_proofs.rs:66-77 | cutting a hash input into fields fails exactly when it is shorter than its fixed-width header |
| `Nizk.SplitJoin` | src/nizk_proofs.rs:66-77 | splitting a joined input recovers hd, hctx, ha, hm and the commitment bytes exactly |
| `Nizk.JoinSplit` | src/nizk_proofs.rs:66-77 | joining the fields of a split input gives back the input |
| `Nizk.MessageLabel` | src/nizk_proofs.rs:62-64 | hm is present exactly when a message is |
| `Nizk.DeriveChallenge` | src/nizk_proofs.rs:54-85 | on an empty hasher, the hasher-driven derivation equals the first 32 bytes of H(hd ‖ hctx ‖ ha ‖ [hm ‖] ser(commitment)); labels and protocol are untouched and the hasher is left empty |
| `Nizk.ChallengeDeterministic` | src/nizk_proofs.rs:54-85 | two derivations in a row with the same message and commitment give identical bytes and leave the session unchanged |
| `Nizk.ProveBatchable` | src/nizk_proofs.rs:88-104 | on a ready session the proof is (honest commitment, honest response to the reference challenge), and fails exactly when that response fails, with its error; the hasher is left empty |
| `Nizk.VerifyBatchable` | src/nizk_proofs.rs:107-115 | on a ready session the outcome is exactly the protocol verifier's outcome on the reference challenge of the proof's commitment |
| `Nizk.ProveShort` | src/nizk_proofs.rs:118-134 | on a ready session the proof is (reference challenge of the honest commitment, honest response), and fails exactly when that response fails |
| `Nizk.VerifyShort` | src/nizk_proofs.rs:137-152 | a simulator failure is returned unchanged with the session untouched; otherwise, on a ready session, `Ok` iff the challenge re-derived from the simulated commitment equals the stored one byte for byte, and `VerificationFailed` otherwise |
| `Nizk.SameTranscript` | src/nizk_proofs.rs:88-134 | batchable and short proofs succeed or fail together with the same error and response; the short proof's challenge is the one derived from the batchable commitment |
| `Nizk.ProofFailuresAreRetryable` | src/nizk_proofs.rs:94-98 | if the protocol's response fails only on conversion, so does proof generation |
| `Nizk.BatchableComplete` | src/nizk_proofs.rs:88-115 | for a protocol complete for w, a batchable proof from a ready session verifies on the session handed back |
| `Nizk.ShortComplete` | src/nizk_proofs.rs:118-152 | for a protocol whose simulator rebuilds honest commitments, a short proof from a ready session verifies on the session handed back |
| `SchnorrNizk.TrueInstance` | src/protocols/schnorr_dlog.rs:134-143 | `schnorr_setup`: the instance keeps the base, its claim is a canonical point, and the protocol is complete for w, with a simulator that rebuilds w's honest commitments |
| `SchnorrNizk.RunBatched` | src/protocols/schnorr_dlog.rs:153-154 | `run_nizk_batched`, called by the tests but with no body in the source files: the outcome is the response's conversion failure, or else the Schnorr verifier's verdict on the honest commitment and response for the challenge derived from that commitment |
| `SchnorrNizk.RunShort` | src/protocols/schnorr_dlog.rs:204-205 | `run_nizk_short`, called by the tests but with no body in the source files: the response's conversion failure, or else `Ok` exactly when the simulator's commitment leads to the same challenge, and `VerificationFailed` otherwise |
| `SchnorrNizk.AcceptValidBatchable` | src/protocols/schnorr_dlog.rs:145-164 | with a true claim base·w, a batchable Schnorr round trip gives `Ok` exactly when the derived challenge names a scalar, and otherwise the retryable `ChallengeConversionFailure`, never `VerificationFailed` |
| `SchnorrNizk.AcceptValidShort` | src/protocols/schnorr_dlog.rs:196-215 | the same if-and-only-if for a short Schnorr round trip |
| `SchnorrNizk.RejectWrongBatchable` | src/protocols/schnorr_dlog.rs:166-194 | with a wrong witness, base not the identity and q prime: `ChallengeConversionFailure` on an unreadable challenge; otherwise `Ok` iff the challenge scalar is zero, and `VerificationFailed` else |
| `SchnorrNizk.WrongShortNeedsCollision` | src/protocols/schnorr_dlog.rs:217-241 | with a wrong witness and a nonzero challenge scalar, the simulated commitment differs from the original; the proof verifies iff the challenge derivation maps both to the same challenge, and otherwise fails with `VerificationFailed` |
| `SchnorrNizk.TamperedBatchableRejected` | src/protocols/schnorr_dlog.rs:90-97 | changing the response of an honest batchable proof to a different scalar makes its verification fail with `VerificationFailed` |

## Left out

- Elliptic-curve and finite-field arithmetic (arkworks, BLS12-377) are left
  out: the group and field are modelled as Z_q for a parameter q. Primality is
  a hypothesis of the rejection lemmas only.
- Blake2s internals and collision resistance are left out: the hash is an
  uninterpreted function. So "a different context or message gives a
  different challenge" is not stated; it holds only with overwhelming
  probability.
- SchnorrNizk.WrongShortNeedsCollision: weaker than the test's claim that a
  wrong-witness short proof is always rejected. That claim depends on the hash
  not colliding, so the lemma proves only the algebraic part.
- SchnorrNizk.RejectWrongBatchable: weaker than the test's claim of certain
  rejection. The equation itself accepts a wrong-witness response when the
  challenge scalar is zero, so the lemma states that exception. In the source
  this happens with probability 1/q.
- Changing the challenge of a short proof is not modelled as a rejection
  scenario. Its outcome depends on the hash, for the same reason.
- `from_random_bytes` and canonical point serialisation are left out. They are
  function parameters of `Schnorr.Group`, kept uninterpreted.
- The `BatchableProof` wire derive and the short-proof wire encoding are left
  out: no decoding is modelled, so no `SerializationError` either.
- The random generator, uniform sampling and `simulate_response` are left
  out. They concern distributions, not values: the nonce is an explicit
  argument instead.
- `examples/schnorr.rs` is a demo driver whose calls no longer match the
  library's signatures.
- `src/hash_registry.rs` is a constant table the transform never consults.
- The tests' retry loops and failure counters are left out. The scenario
  lemmas state the outcome of one attempt.
- Mutation through `&mut self` is left out: the session, and the hasher inside
  it, are values passed in and handed back.
