/**
  The Schnorr protocol under the Fiat-Shamir transform: the end-to-end
  scenarios of the Schnorr test suite, for every group order, hash function,
  context, message and nonce.
*/
module SchnorrNizk {
  import opened Lib
  import opened Digest
  import opened Zq
  import opened Sigma
  import opened Schnorr
  import opened Nizk

  /**
    The test setup: a true statement claim = base·w, for which w is a witness
    the protocol is complete for and whose honest transcripts the simulator
    rebuilds.
  */
  function TrueInstance(g: Group, base: int, w: int): (i: SchnorrInstance)
    ensures i.base == base && IsCanonical(g.q, i.claim)
    ensures Complete(AsSigma(Schnorr.New(g, i)), w)
    ensures SimulatorReproduces(AsSigma(Schnorr.New(g, i)), w)
  {
    var i := SchnorrInstance(base, Mul(g.q, base, w));
    CompleteForTrueClaim(Schnorr.New(g, i), w);
    i
  }

  /** A Fiat-Shamir session over the Schnorr protocol bound to `instance`. */
  function SchnorrSession(g: Group, instance: SchnorrInstance, hash: HashFn, hasher: Hasher, ctx: seq<byte>)
    : (s: Session<int, int, ProverState, int, int>)
    requires DigestWide(hash)
    ensures Ready(s) && s.hash == hash
  {
    Nizk.New(AsSigma(Schnorr.New(g, instance)), hash, hasher, ctx)
  }

  /**
    One batchable round trip: the prover proves on its session and the
    verifier checks on a session opened from the same inputs. The outcome is
    the Schnorr verifier's verdict on the honest commitment and response for
    the derived challenge, or the response's conversion failure.
  */
  function RunBatched(
    g: Group, instance: SchnorrInstance, w: int,
    hash: HashFn, hasher: Hasher, ctx: seq<byte>, message: Option<seq<byte>>, r: int)
    : (res: Result<()>)
    requires DigestWide(hash)
    ensures
      var p := Schnorr.New(g, instance);
      var commitment := Mul(g.q, instance.base, r);
      var ch := ReferenceChallenge(SchnorrSession(g, instance, hash, hasher, ctx), message, commitment);
      match ProverResponse(p, ProverState(w, r), ch)
      case Err(e) => res == Err(e)
      case Ok(z) => res == Verifier(p, commitment, ch, z)
  {
    var (proof, _) := ProveBatchable(SchnorrSession(g, instance, hash, hasher, ctx), w, message, r);
    match proof
    case Err(e) => Err(e)
    case Ok(pf) => VerifyBatchable(SchnorrSession(g, instance, hash, hasher, ctx), pf, message).0
  }

  /**
    One short-proof round trip, on the same terms as RunBatched. Unless the
    response fails to convert the challenge, the proof is accepted exactly
    when the commitment the simulator rebuilds leads to the same challenge.
  */
  function RunShort(
    g: Group, instance: SchnorrInstance, w: int,
    hash: HashFn, hasher: Hasher, ctx: seq<byte>, message: Option<seq<byte>>, r: int)
    : (res: Result<()>)
    requires DigestWide(hash)
    ensures
      var p := Schnorr.New(g, instance);
      var s := SchnorrSession(g, instance, hash, hasher, ctx);
      var ch := ReferenceChallenge(s, message, Mul(g.q, instance.base, r));
      match ProverResponse(p, ProverState(w, r), ch)
      case Err(e) => res == Err(e)
      case Ok(z) =>
        && SimulateCommitment(p, ch, z).Ok?
        && (res == Ok(()) <==> ReferenceChallenge(s, message, SimulateCommitment(p, ch, z).value) == ch)
        && (res.Err? ==> res.error == VerificationFailed)
  {
    var (proof, _) := ProveShort(SchnorrSession(g, instance, hash, hasher, ctx), w, message, r);
    match proof
    case Err(e) => Err(e)
    case Ok(pf) => VerifyShort(SchnorrSession(g, instance, hash, hasher, ctx), pf, message).0
  }

  /**
    Accepting a valid batchable proof: with the true witness the round trip
    succeeds exactly when the derived challenge names a scalar, and otherwise
    fails with the retryable conversion failure.
  */
  lemma AcceptValidBatchable(
    g: Group, base: int, w: int,
    hash: HashFn, hasher: Hasher, ctx: seq<byte>, message: Option<seq<byte>>, r: int)
    requires DigestWide(hash)
    ensures
      var s := SchnorrSession(g, TrueInstance(g, base, w), hash, hasher, ctx);
      var ch := ReferenceChallenge(s, message, Mul(g.q, base, r));
      var res := RunBatched(g, TrueInstance(g, base, w), w, hash, hasher, ctx, message, r);
      && (res == Ok(()) <==> g.fromRandomBytes(ch).Some?)
      && (res.Err? ==> res.error == ChallengeConversionFailure)
  {
  }

  /** Accepting a valid short proof, on the same terms as the batchable one. */
  lemma AcceptValidShort(
    g: Group, base: int, w: int,
    hash: HashFn, hasher: Hasher, ctx: seq<byte>, message: Option<seq<byte>>, r: int)
    requires DigestWide(hash)
    ensures
      var s := SchnorrSession(g, TrueInstance(g, base, w), hash, hasher, ctx);
      var ch := ReferenceChallenge(s, message, Mul(g.q, base, r));
      var res := RunShort(g, TrueInstance(g, base, w), w, hash, hasher, ctx, message, r);
      && (res == Ok(()) <==> g.fromRandomBytes(ch).Some?)
      && (res.Err? ==> res.error == ChallengeConversionFailure)
  {
  }

  /**
    Rejecting a batchable proof made with the wrong witness, in a prime-order
    group with a base other than the identity: the round trip fails with
    VerificationFailed, except that it cannot read an unreadable challenge
    and accepts exactly when the challenge is the zero scalar.
  */
  lemma RejectWrongBatchable(
    g: Group, base: int, w: int, w': int,
    hash: HashFn, hasher: Hasher, ctx: seq<byte>, message: Option<seq<byte>>, r: int)
    requires DigestWide(hash)
    requires IsPrime(g.q)
    requires base % g.q != 0
    requires w % g.q != w' % g.q
    ensures
      var s := SchnorrSession(g, TrueInstance(g, base, w), hash, hasher, ctx);
      var ch := ReferenceChallenge(s, message, Mul(g.q, base, r));
      var res := RunBatched(g, TrueInstance(g, base, w), w', hash, hasher, ctx, message, r);
      match g.fromRandomBytes(ch)
      case None => res == Err(ChallengeConversionFailure)
      case Some(c) =>
        && (res == Ok(()) <==> c % g.q == 0)
        && (c % g.q != 0 ==> res == Err(VerificationFailed))
  {
    var p := Schnorr.New(g, TrueInstance(g, base, w));
    var s := SchnorrSession(g, TrueInstance(g, base, w), hash, hasher, ctx);
    var ch := ReferenceChallenge(s, message, Mul(g.q, base, r));
    if g.fromRandomBytes(ch).Some? {
      WrongWitnessRejected(p, w, w', r, ch);
    }
  }

  /**
    Rejecting a short proof made with the wrong witness: unless the challenge
    is the zero scalar, the simulator rebuilds a commitment different from the
    one the challenge was derived from, so the proof verifies only if the
    challenge derivation maps those two distinct commitments to the same
    challenge.
  */
  lemma WrongShortNeedsCollision(
    g: Group, base: int, w: int, w': int,
    hash: HashFn, hasher: Hasher, ctx: seq<byte>, message: Option<seq<byte>>, r: int)
    requires DigestWide(hash)
    requires IsPrime(g.q)
    requires base % g.q != 0
    requires w % g.q != w' % g.q
    ensures
      var p := Schnorr.New(g, TrueInstance(g, base, w));
      var s := SchnorrSession(g, TrueInstance(g, base, w), hash, hasher, ctx);
      var commitment := Mul(g.q, base, r);
      var ch := ReferenceChallenge(s, message, commitment);
      var res := RunShort(g, TrueInstance(g, base, w), w', hash, hasher, ctx, message, r);
      g.fromRandomBytes(ch).Some? && g.fromRandomBytes(ch).value % g.q != 0 ==>
        var z := ProverResponse(p, ProverState(w', r), ch).value;
        var simulated := SimulateCommitment(p, ch, z).value;
        && simulated != commitment
        && (res == Ok(()) <==> ReferenceChallenge(s, message, simulated) == ch)
        && (res.Err? ==> res == Err(VerificationFailed))
  {
    var p := Schnorr.New(g, TrueInstance(g, base, w));
    var s := SchnorrSession(g, TrueInstance(g, base, w), hash, hasher, ctx);
    var commitment := Mul(g.q, base, r);
    var ch := ReferenceChallenge(s, message, commitment);
    if g.fromRandomBytes(ch).Some? && g.fromRandomBytes(ch).value % g.q != 0 {
      WrongWitnessRejected(p, w, w', r, ch);
      var z := ProverResponse(p, ProverState(w', r), ch).value;
      SimulatedCommitmentIsUnique(p, ch, z, commitment);
    }
  }

  /**
    Tampering with the response of an honest batchable proof, so that it
    names a different scalar, makes its verification fail, in a prime-order
    group with a base other than the identity.
  */
  lemma TamperedBatchableRejected(
    g: Group, base: int, w: int,
    hash: HashFn, hasher: Hasher, ctx: seq<byte>, message: Option<seq<byte>>, r: int, z': int)
    requires DigestWide(hash)
    requires IsPrime(g.q)
    requires base % g.q != 0
    ensures
      var s := SchnorrSession(g, TrueInstance(g, base, w), hash, hasher, ctx);
      var (proof, s1) := ProveBatchable(s, w, message, r);
      proof.Ok? && z' % g.q != proof.value.response % g.q ==>
        VerifyBatchable(s1, proof.value.(response := z'), message).0 == Err(VerificationFailed)
  {
    var p := Schnorr.New(g, TrueInstance(g, base, w));
    var s := SchnorrSession(g, TrueInstance(g, base, w), hash, hasher, ctx);
    var (proof, s1) := ProveBatchable(s, w, message, r);
    if proof.Ok? && z' % g.q != proof.value.response % g.q {
      var ch := ReferenceChallenge(s, message, proof.value.commitment);
      HonestTranscriptAccepted(p, w, r, ch);
      TamperedResponseRejected(p, proof.value.commitment, ch, proof.value.response, z');
    }
  }
}
