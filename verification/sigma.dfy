/**
  The capability set every Sigma protocol offers to the Fiat-Shamir
  transform, in the fallible, nonce-taking form the transform calls.

  A protocol bound to its instance is a value of `Sigma`: each operation is a
  pure total function, so the verifier is a predicate of its inputs,
  `simulateCommitment` sees only the challenge and the response, and
  `proverResponse` sees only the prover state and the challenge. The nonce
  that the source draws from a random generator is an explicit argument of
  type N.
*/
module Sigma {
  import opened Lib

  datatype Sigma<-W, !C, !St, !Z, -N> = Sigma(
    /** Protocol domain identifier, one label wide. */
    protocolLabel: Label,
    /** (witness, nonce) -> (commitment, prover state) */
    proverCommit: (W, N) -> (C, St),
    /** (prover state, challenge) -> response */
    proverResponse: (St, Challenge) -> Result<Z>,
    /** (commitment, challenge, response) -> accept or reject */
    verifier: (C, Challenge, Z) -> Result<()>,
    /** (challenge, response) -> the commitment the verifier would accept */
    simulateCommitment: (Challenge, Z) -> Result<C>,
    /** Canonical byte encoding of a commitment. */
    serialize: C -> seq<byte>
  )

  /** The commitment an honest prover sends for witness w and nonce n. */
  function HonestCommitment<W, C, St, Z, N>(p: Sigma<W, C, St, Z, N>, w: W, n: N): C {
    p.proverCommit(w, n).0
  }

  /** The honest prover's answer to challenge ch for witness w and nonce n. */
  function HonestResponse<W, C, St, Z, N>(p: Sigma<W, C, St, Z, N>, w: W, n: N, ch: Challenge): Result<Z> {
    p.proverResponse(p.proverCommit(w, n).1, ch)
  }

  /**
    Completeness for witness w: whenever the honest prover can answer a
    challenge, the verifier accepts its commitment with that answer.
  */
  ghost predicate Complete<W, C, St, Z, N(!new)>(p: Sigma<W, C, St, Z, N>, w: W) {
    forall n: N, ch: Challenge ::
      HonestResponse(p, w, n, ch).Ok? ==>
        p.verifier(HonestCommitment(p, w, n), ch, HonestResponse(p, w, n, ch).value) == Ok(())
  }

  /**
    The simulator reproduces honest transcripts for witness w: from an
    honest (challenge, response) pair it rebuilds the honest commitment.
  */
  ghost predicate SimulatorReproduces<W, C, St, Z, N(!new)>(p: Sigma<W, C, St, Z, N>, w: W) {
    forall n: N, ch: Challenge ::
      HonestResponse(p, w, n, ch).Ok? ==>
        p.simulateCommitment(ch, HonestResponse(p, w, n, ch).value) == Ok(HonestCommitment(p, w, n))
  }

  /** The only way the prover's response fails is a challenge that is not a scalar. */
  ghost predicate ResponseFailsOnlyOnConversion<W, C, St(!new), Z, N>(p: Sigma<W, C, St, Z, N>) {
    forall st: St, ch: Challenge ::
      p.proverResponse(st, ch).Err? ==> p.proverResponse(st, ch).error == ChallengeConversionFailure
  }

  /** The only way simulation fails is a challenge that is not a scalar. */
  ghost predicate SimulationFailsOnlyOnConversion<W, C, St, Z(!new), N>(p: Sigma<W, C, St, Z, N>) {
    forall ch: Challenge, z: Z ::
      p.simulateCommitment(ch, z).Err? ==> p.simulateCommitment(ch, z).error == ChallengeConversionFailure
  }

  /**
    The interface's promise about honest transcripts: for a protocol that is
    complete for w and whose simulator reproduces honest commitments, the
    simulator succeeds on every honest (challenge, response) pair and the
    verifier accepts what it rebuilds.
  */
  lemma SimulatedHonestTranscriptAccepted<W, C, St, Z, N(!new)>(p: Sigma<W, C, St, Z, N>, w: W, n: N, ch: Challenge)
    requires Complete(p, w) && SimulatorReproduces(p, w)
    requires HonestResponse(p, w, n, ch).Ok?
    ensures
      var sim := p.simulateCommitment(ch, HonestResponse(p, w, n, ch).value);
      && sim == Ok(HonestCommitment(p, w, n))
      && p.verifier(sim.value, ch, HonestResponse(p, w, n, ch).value) == Ok(())
  {
  }
}
