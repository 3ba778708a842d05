/**
  The Fiat-Shamir transform over any Sigma protocol. A session binds a
  protocol, a hash function and a context; it precomputes the three labels
  hd, hctx and ha and owns the hasher, which every operation threads through
  and hands back.
*/
module Nizk {
  import opened Lib
  import opened Digest
  import opened Sigma

  datatype Session<-W, !C, !St, !Z, -N> = Session(
    protocol: Sigma<W, C, St, Z, N>,
    hash: HashFn,
    hasher: Hasher,
    /** first 32 bytes of the digest of the domain separator */
    hd: Label,
    /** the protocol's own label */
    ha: Label,
    /** first 32 bytes of the digest of the session context */
    hctx: Label
  )

  /** The canonical proof: commitment and response. */
  datatype BatchableProof<C, Z> = BatchableProof(commitment: C, response: Z)

  /** The compact proof: challenge and response; verification rebuilds the commitment. */
  datatype ShortProof<Z> = ShortProof(challenge: Challenge, response: Z)

  /** No bytes are pending in the session's hasher. */
  predicate Ready<W, C, St, Z, N>(s: Session<W, C, St, Z, N>) {
    s.hasher.buffer == []
  }

  /** The first label-width bytes of a digest. */
  function Truncate(digest: seq<byte>): Label
    requires |digest| >= LABEL_LENGTH
  {
    digest[..LABEL_LENGTH]
  }

  /**
    Opens a session. The hasher is finalised and reset after each label, so
    hctx is the digest of the context alone, and hd is the digest of the
    domain separator alone when the hasher starts empty.
  */
  function New<W, C, St, Z, N>(protocol: Sigma<W, C, St, Z, N>, hash: HashFn, hasher: Hasher, ctx: seq<byte>)
    : (s: Session<W, C, St, Z, N>)
    requires DigestWide(hash)
    ensures s.protocol == protocol && s.hash == hash
    ensures Ready(s)
    ensures s.hd == hash(hasher.buffer + DOMSEP)[..LABEL_LENGTH]
    ensures hasher.buffer == [] ==> s.hd == hash(DOMSEP)[..LABEL_LENGTH]
    ensures s.hctx == hash(ctx)[..LABEL_LENGTH]
    ensures s.ha == protocol.protocolLabel
  {
    var (hdLong, h1) := hasher.Update(DOMSEP).FinalizeReset(hash);
    var hd := Truncate(hdLong);
    var ha := protocol.protocolLabel;
    var (hctxLong, h2) := h1.Update(ctx).FinalizeReset(hash);
    var hctx := Truncate(hctxLong);
    assert [] + ctx == ctx;
    assert hasher.buffer == [] ==> hasher.buffer + DOMSEP == DOMSEP;
    Session(protocol, hash, h2, hd, ha, hctx)
  }

  /** The fields of a challenge derivation's hash input, in the order they are hashed. */
  datatype ChallengeFields = ChallengeFields(
    hd: Label,
    hctx: Label,
    ha: Label,
    hm: Option<Label>,
    commitmentBytes: seq<byte>
  )

  /** Length of the fixed-width prefix: three labels, or four with a message. */
  function HeaderLength(withMessage: bool): nat {
    if withMessage then 4 * LABEL_LENGTH else 3 * LABEL_LENGTH
  }

  /** The hash input: hd ‖ hctx ‖ ha ‖ [hm ‖] commitment bytes. */
  function Join(f: ChallengeFields): (b: seq<byte>)
    ensures |b| == HeaderLength(f.hm.Some?) + |f.commitmentBytes|
  {
    var hm := match f.hm case None => [] case Some(m) => m;
    f.hd + f.hctx + f.ha + hm + f.commitmentBytes
  }

  /** Cuts a hash input back into its fields; fails only when it is shorter than its header. */
  function Split(b: seq<byte>, withMessage: bool): (r: Option<ChallengeFields>)
    ensures r.None? <==> |b| < HeaderLength(withMessage)
    ensures r.Some? ==> r.value.hm.Some? == withMessage
  {
    var n := LABEL_LENGTH;
    if |b| < HeaderLength(withMessage) then None
    else if withMessage then
      Some(ChallengeFields(b[..n], b[n..2 * n], b[2 * n..3 * n], Some(b[3 * n..4 * n]), b[4 * n..]))
    else
      Some(ChallengeFields(b[..n], b[n..2 * n], b[2 * n..3 * n], None, b[3 * n..]))
  }

  /** Splitting a joined hash input recovers every field exactly. */
  lemma SplitJoin(f: ChallengeFields)
    ensures Split(Join(f), f.hm.Some?) == Some(f)
  {
    var b := Join(f);
    var n := LABEL_LENGTH;
    var hm := match f.hm case None => [] case Some(m) => m;
    assert b[..n] == f.hd;
    assert b[n..2 * n] == f.hctx;
    assert b[2 * n..3 * n] == f.ha;
    if f.hm.Some? {
      assert b[3 * n..4 * n] == hm;
      assert b[4 * n..] == f.commitmentBytes;
    } else {
      assert b[3 * n..] == f.commitmentBytes;
    }
  }

  /** Joining the fields of a split hash input gives back the input. */
  lemma JoinSplit(b: seq<byte>, withMessage: bool)
    requires |b| >= HeaderLength(withMessage)
    ensures Join(Split(b, withMessage).value) == b
  {
  }

  /** hm: the truncated digest of the message, when there is one. */
  function MessageLabel(hash: HashFn, message: Option<seq<byte>>): (hm: Option<Label>)
    requires DigestWide(hash)
    ensures hm.Some? == message.Some?
  {
    match message
    case None => None
    case Some(m) => Some(Truncate(hash(m)))
  }

  /** The fields a session hashes for (message, commitment). */
  function Transcript<W, C, St, Z, N>(s: Session<W, C, St, Z, N>, message: Option<seq<byte>>, commitment: C)
    : ChallengeFields
    requires DigestWide(s.hash)
  {
    ChallengeFields(s.hd, s.hctx, s.ha, MessageLabel(s.hash, message), s.protocol.serialize(commitment))
  }

  /** The challenge the layout prescribes: the first 32 bytes of the digest of the joined fields. */
  function ReferenceChallenge<W, C, St, Z, N>(s: Session<W, C, St, Z, N>, message: Option<seq<byte>>, commitment: C)
    : Challenge
    requires DigestWide(s.hash)
  {
    s.hash(Join(Transcript(s, message, commitment)))[..CHALLENGE_LENGTH]
  }

  /**
    Derives the challenge by feeding the hasher field by field. On a ready
    session it yields the reference challenge; in every case the session comes
    back with its labels untouched and its hasher empty.
  */
  function DeriveChallenge<W, C, St, Z, N>(s: Session<W, C, St, Z, N>, message: Option<seq<byte>>, commitment: C)
    : (r: (Challenge, Session<W, C, St, Z, N>))
    requires DigestWide(s.hash)
    ensures r.1 == s.(hasher := Hasher([]))
    ensures Ready(s) ==> r.0 == ReferenceChallenge(s, message, commitment)
  {
    var commitmentBytes := s.protocol.serialize(commitment);
    match message
    case Some(msg) =>
      var (hmLong, h1) := s.hasher.Update(msg).FinalizeReset(s.hash);
      var hm := Truncate(hmLong);
      assert Ready(s) ==> s.hasher.buffer + msg == msg;
      var h2 := h1.Update(s.hd).Update(s.hctx).Update(s.ha).Update(hm).Update(commitmentBytes);
      var (hashed, h3) := h2.FinalizeReset(s.hash);
      assert h2.buffer == Join(ChallengeFields(s.hd, s.hctx, s.ha, Some(hm), commitmentBytes));
      (hashed[..CHALLENGE_LENGTH], s.(hasher := h3))
    case None =>
      var h1 := s.hasher.Update(s.hd).Update(s.hctx).Update(s.ha).Update(commitmentBytes);
      var (hashed, h2) := h1.FinalizeReset(s.hash);
      assert Ready(s) ==> h1.buffer == Join(ChallengeFields(s.hd, s.hctx, s.ha, None, commitmentBytes));
      (hashed[..CHALLENGE_LENGTH], s.(hasher := h2))
  }

  /** Produces a batchable proof: commit, derive the challenge, respond. */
  function ProveBatchable<W, C, St, Z, N>(s: Session<W, C, St, Z, N>, w: W, message: Option<seq<byte>>, n: N)
    : (r: (Result<BatchableProof<C, Z>>, Session<W, C, St, Z, N>))
    requires DigestWide(s.hash)
    ensures r.1 == s.(hasher := Hasher([]))
    ensures Ready(s) ==>
      var commitment := HonestCommitment(s.protocol, w, n);
      var z := HonestResponse(s.protocol, w, n, ReferenceChallenge(s, message, commitment));
      && (r.0.Ok? <==> z.Ok?)
      && (r.0.Ok? ==> r.0.value == BatchableProof(commitment, z.value))
      && (r.0.Err? ==> r.0.error == z.error)
  {
    var (commitment, state) := s.protocol.proverCommit(w, n);
    var (challenge, s1) := DeriveChallenge(s, message, commitment);
    match s.protocol.proverResponse(state, challenge)
    case Err(e) => (Err(e), s1)
    case Ok(z) => (Ok(BatchableProof(commitment, z)), s1)
  }

  /** Verifies a batchable proof: re-derive the challenge and defer to the protocol's verifier. */
  function VerifyBatchable<W, C, St, Z, N>(s: Session<W, C, St, Z, N>, proof: BatchableProof<C, Z>, message: Option<seq<byte>>)
    : (r: (Result<()>, Session<W, C, St, Z, N>))
    requires DigestWide(s.hash)
    ensures r.1 == s.(hasher := Hasher([]))
    ensures Ready(s) ==>
      r.0 == s.protocol.verifier(proof.commitment, ReferenceChallenge(s, message, proof.commitment), proof.response)
  {
    var (challenge, s1) := DeriveChallenge(s, message, proof.commitment);
    (s.protocol.verifier(proof.commitment, challenge, proof.response), s1)
  }

  /** Produces a short proof: the same steps as a batchable proof, keeping the challenge. */
  function ProveShort<W, C, St, Z, N>(s: Session<W, C, St, Z, N>, w: W, message: Option<seq<byte>>, n: N)
    : (r: (Result<ShortProof<Z>>, Session<W, C, St, Z, N>))
    requires DigestWide(s.hash)
    ensures r.1 == s.(hasher := Hasher([]))
    ensures Ready(s) ==>
      var ch := ReferenceChallenge(s, message, HonestCommitment(s.protocol, w, n));
      var z := HonestResponse(s.protocol, w, n, ch);
      && (r.0.Ok? <==> z.Ok?)
      && (r.0.Ok? ==> r.0.value == ShortProof(ch, z.value))
      && (r.0.Err? ==> r.0.error == z.error)
  {
    var (commitment, state) := s.protocol.proverCommit(w, n);
    var (challenge, s1) := DeriveChallenge(s, message, commitment);
    match s.protocol.proverResponse(state, challenge)
    case Err(e) => (Err(e), s1)
    case Ok(z) => (Ok(ShortProof(challenge, z)), s1)
  }

  /**
    Verifies a short proof: rebuild the commitment with the simulator,
    re-derive the challenge from it, and accept exactly when it matches the
    stored challenge byte for byte. A simulator failure is passed through
    before the hasher is touched.
  */
  function VerifyShort<W, C, St, Z, N>(s: Session<W, C, St, Z, N>, proof: ShortProof<Z>, message: Option<seq<byte>>)
    : (r: (Result<()>, Session<W, C, St, Z, N>))
    requires DigestWide(s.hash)
    ensures
      var sim := s.protocol.simulateCommitment(proof.challenge, proof.response);
      && (sim.Err? ==> r == (Err(sim.error), s))
      && (sim.Ok? ==> r.1 == s.(hasher := Hasher([])))
      && (sim.Ok? && Ready(s) ==>
            && (r.0 == Ok(()) <==> ReferenceChallenge(s, message, sim.value) == proof.challenge)
            && (r.0.Err? ==> r.0.error == VerificationFailed))
  {
    match s.protocol.simulateCommitment(proof.challenge, proof.response)
    case Err(e) => (Err(e), s)
    case Ok(commitment) =>
      var (challenge, s1) := DeriveChallenge(s, message, commitment);
      if challenge == proof.challenge then (Ok(()), s1) else (Err(VerificationFailed), s1)
  }

  /**
    Determinism: on a ready session, deriving the same challenge twice in a
    row gives identical bytes and leaves the session as it was.
  */
  lemma ChallengeDeterministic<W, C, St, Z, N>(s: Session<W, C, St, Z, N>, message: Option<seq<byte>>, commitment: C)
    requires DigestWide(s.hash) && Ready(s)
    ensures
      var (c1, s1) := DeriveChallenge(s, message, commitment);
      s1 == s && DeriveChallenge(s1, message, commitment) == (c1, s1)
  {
  }

  /**
    The labels a session hashes depend on the domain separator, the protocol
    label and the context only: two sessions opened over protocols with the
    same label get the same hctx and ha whatever their hashers held, and the
    same hd when both hashers start empty.
  */
  lemma LabelsDependOnlyOnInputs<W, C, St, Z, N>(
    p1: Sigma<W, C, St, Z, N>, p2: Sigma<W, C, St, Z, N>, hash: HashFn, h1: Hasher, h2: Hasher, ctx: seq<byte>)
    requires DigestWide(hash)
    requires p1.protocolLabel == p2.protocolLabel
    ensures
      var s1 := New(p1, hash, h1, ctx);
      var s2 := New(p2, hash, h2, ctx);
      && s1.hctx == s2.hctx && s1.ha == s2.ha
      && (h1.buffer == [] && h2.buffer == [] ==> s1.hd == s2.hd)
  {
  }

  /**
    Batchable and short proofs run the same commit, challenge and response
    steps: they succeed or fail together, with the same error and the same
    response, and the short proof's challenge is the one derived from the
    batchable proof's commitment.
  */
  lemma SameTranscript<W, C, St, Z, N>(s: Session<W, C, St, Z, N>, w: W, message: Option<seq<byte>>, n: N)
    requires DigestWide(s.hash)
    ensures
      var (b, sb) := ProveBatchable(s, w, message, n);
      var (t, st) := ProveShort(s, w, message, n);
      && sb == st
      && (b.Ok? <==> t.Ok?)
      && (b.Err? ==> t.Err? && b.error == t.error)
      && (b.Ok? ==>
            && t.value.response == b.value.response
            && t.value.challenge == DeriveChallenge(s, message, b.value.commitment).0)
  {
  }

  /** With a protocol that fails only on unreadable challenges, proof generation fails only that way. */
  lemma ProofFailuresAreRetryable<W, C, St(!new), Z, N>(s: Session<W, C, St, Z, N>, w: W, message: Option<seq<byte>>, n: N)
    requires DigestWide(s.hash)
    requires ResponseFailsOnlyOnConversion(s.protocol)
    ensures ProveBatchable(s, w, message, n).0.Err? ==>
      ProveBatchable(s, w, message, n).0.error == ChallengeConversionFailure
    ensures ProveShort(s, w, message, n).0.Err? ==>
      ProveShort(s, w, message, n).0.error == ChallengeConversionFailure
  {
    var (commitment, state) := s.protocol.proverCommit(w, n);
    var challenge := DeriveChallenge(s, message, commitment).0;
    assert s.protocol.proverResponse(state, challenge).Err? ==>
      s.protocol.proverResponse(state, challenge).error == ChallengeConversionFailure;
  }

  /**
    Completeness of the batchable proof: for a protocol complete for w, a
    proof made on a ready session verifies on the session handed back.
  */
  lemma BatchableComplete<W, C, St, Z, N(!new)>(s: Session<W, C, St, Z, N>, w: W, message: Option<seq<byte>>, n: N)
    requires DigestWide(s.hash) && Ready(s)
    requires Complete(s.protocol, w)
    ensures
      var (proof, s1) := ProveBatchable(s, w, message, n);
      proof.Ok? ==> VerifyBatchable(s1, proof.value, message) == (Ok(()), s)
  {
  }

  /**
    Completeness of the short proof: for a protocol whose simulator rebuilds
    honest commitments for w, a short proof made on a ready session verifies
    on the session handed back.
  */
  lemma ShortComplete<W, C, St, Z, N(!new)>(s: Session<W, C, St, Z, N>, w: W, message: Option<seq<byte>>, n: N)
    requires DigestWide(s.hash) && Ready(s)
    requires SimulatorReproduces(s.protocol, w)
    ensures
      var (proof, s1) := ProveShort(s, w, message, n);
      proof.Ok? ==> VerifyShort(s1, proof.value, message) == (Ok(()), s)
  {
  }
}
