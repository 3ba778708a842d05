/**
  Schnorr proof of knowledge of a discrete logarithm: the prover claims to
  know w with claim = base·w. The group is Z_q (see module Zq); the group
  provider's byte-to-scalar map and point encoding stay uninterpreted.
*/
module Schnorr {
  import opened Lib
  import opened Zq
  import opened Sigma

  /**
    What the protocol needs from the group provider: the group order, the
    partial map from challenge bytes to a scalar, and the canonical encoding
    of a point. An int names the point of its residue mod q, so points are
    compared, and encoded, through their canonical representative.
  */
  datatype Group = Group(
    q: Order,
    fromRandomBytes: Challenge -> Option<int>,
    serialize: int -> seq<byte>
  )

  /** The public statement: the prover knows the discrete log of `claim` to `base`. */
  datatype SchnorrInstance = SchnorrInstance(base: int, claim: int)

  /** What the prover keeps between its commitment and its response. */
  datatype ProverState = ProverState(witnessScalar: int, randomValue: int)

  datatype SchnorrDLOG = SchnorrDLOG(group: Group, instance: SchnorrInstance)

  /** The verification equation base·z + claim·c == commitment, as points. */
  predicate Accepts(p: SchnorrDLOG, commitment: int, c: int, z: int) {
    var q := p.group.q;
    Add(q, Mul(q, p.instance.base, z), Mul(q, p.instance.claim, c)) == commitment % q
  }

  /** The protocol label: a placeholder of 32 zero bytes, the same for every instance. */
  function Label(p: SchnorrDLOG): (r: Label)
    ensures forall i :: 0 <= i < |r| ==> r[i] == 0
  {
    seq(LABEL_LENGTH, i => 0)
  }

  /** Binds the protocol to its statement without touching it. */
  function New(group: Group, instance: SchnorrInstance): (p: SchnorrDLOG)
    ensures p.instance == instance && p.group == group
  {
    SchnorrDLOG(group, instance)
  }

  /** Commits to the nonce r; the commitment is the point the state's nonce names. */
  function ProverCommit(p: SchnorrDLOG, w: int, r: int): (res: (int, ProverState))
    ensures res.1.witnessScalar == w && res.1.randomValue == r
    ensures res.0 == Mul(p.group.q, p.instance.base, res.1.randomValue)
  {
    var commitment := Mul(p.group.q, p.instance.base, r);
    (commitment, ProverState(w, r))
  }

  /**
    Answers challenge ch: fails exactly when ch is not a scalar, and otherwise
    returns the scalar z with z + c·w = r in the field.
  */
  function ProverResponse(p: SchnorrDLOG, st: ProverState, ch: Challenge): (res: Result<int>)
    ensures res.Err? <==> p.group.fromRandomBytes(ch).None?
    ensures res.Err? ==> res.error == ChallengeConversionFailure
    ensures res.Ok? ==>
      var q := p.group.q;
      var c := p.group.fromRandomBytes(ch).value;
      IsCanonical(q, res.value) && Add(q, res.value, Mul(q, c, st.witnessScalar)) == st.randomValue % q
  {
    match p.group.fromRandomBytes(ch)
    case None => Err(ChallengeConversionFailure)
    case Some(c) =>
      var q := p.group.q;
      var z := Sub(q, st.randomValue, Mul(q, c, st.witnessScalar));
      AddReduce(st.randomValue - Mul(q, c, st.witnessScalar), Mul(q, c, st.witnessScalar), q);
      Ok(z)
  }

  /**
    Checks a transcript: rejects a challenge that is not a scalar as a
    conversion failure, and otherwise accepts exactly when the verification
    equation holds.
  */
  function Verifier(p: SchnorrDLOG, commitment: int, ch: Challenge, z: int): (res: Result<()>)
    ensures p.group.fromRandomBytes(ch).None? ==> res == Err(ChallengeConversionFailure)
    ensures p.group.fromRandomBytes(ch).Some? ==>
      && (res == Ok(()) <==> Accepts(p, commitment, p.group.fromRandomBytes(ch).value, z))
      && (res.Err? ==> res.error == VerificationFailed)
  {
    match p.group.fromRandomBytes(ch)
    case None => Err(ChallengeConversionFailure)
    case Some(c) =>
      var q := p.group.q;
      if Add(q, Mul(q, p.instance.base, z), Mul(q, p.instance.claim, c)) == commitment % q then
        Ok(())
      else
        Err(VerificationFailed)
  }

  /**
    Rebuilds a commitment from a (challenge, response) pair: fails exactly on
    the challenges the verifier cannot read, and otherwise yields a commitment
    the verifier accepts with that pair.
  */
  function SimulateCommitment(p: SchnorrDLOG, ch: Challenge, z: int): (res: Result<int>)
    ensures res.Err? <==> p.group.fromRandomBytes(ch).None?
    ensures res.Err? ==> res.error == ChallengeConversionFailure
    ensures res.Ok? ==> IsCanonical(p.group.q, res.value) && Verifier(p, res.value, ch, z) == Ok(())
  {
    match p.group.fromRandomBytes(ch)
    case None => Err(ChallengeConversionFailure)
    case Some(c) =>
      var q := p.group.q;
      var commitment := Add(q, Mul(q, p.instance.base, z), Mul(q, p.instance.claim, c));
      ModCanonical(commitment, q);
      Ok(commitment)
  }

  /**
    The Schnorr protocol seen through the generic Sigma-protocol interface.
    It keeps the interface's failure discipline, its simulator yields
    commitments its verifier accepts, and the verifier and the encoding see a
    commitment only as a point.
  */
  function AsSigma(p: SchnorrDLOG): (s: Sigma<int, int, ProverState, int, int>)
    ensures s.protocolLabel == Label(p)
    ensures ResponseFailsOnlyOnConversion(s) && SimulationFailsOnlyOnConversion(s)
    ensures forall ch: Challenge, z: int :: s.simulateCommitment(ch, z).Ok? ==>
      s.verifier(s.simulateCommitment(ch, z).value, ch, z) == Ok(())
    ensures forall a: int, b: int :: a % p.group.q == b % p.group.q ==> s.serialize(a) == s.serialize(b)
  {
    Sigma(
      Label(p),
      (w, r) => ProverCommit(p, w, r),
      (st, ch) => ProverResponse(p, st, ch),
      (commitment, ch, z) => Verifier(p, commitment, ch, z),
      (ch, z) => SimulateCommitment(p, ch, z),
      commitment => p.group.serialize(commitment % p.group.q))
  }

  /** A simulated commitment names the one and only point the verifier accepts. */
  lemma SimulatedCommitmentIsUnique(p: SchnorrDLOG, ch: Challenge, z: int, commitment: int)
    ensures Verifier(p, commitment, ch, z) == Ok(()) <==> SimulateCommitment(p, ch, z) == Ok(commitment % p.group.q)
  {
  }

  /**
    The verifier sees group elements, not their names: commitments that name
    the same point, and responses that name the same scalar, get the same
    outcome.
  */
  lemma VerifierSeesPoints(p: SchnorrDLOG, a: int, b: int, ch: Challenge, z: int, z': int)
    requires a % p.group.q == b % p.group.q
    requires z % p.group.q == z' % p.group.q
    ensures Verifier(p, a, ch, z) == Verifier(p, b, ch, z')
  {
    MulReduce(p.instance.base, z, p.group.q);
    MulReduce(p.instance.base, z', p.group.q);
  }

  /** (A + B) mod q equals A mod q exactly when B vanishes mod q. */
  lemma ShiftInvariant(a: int, b: int, q: Order)
    ensures (a + b) % q == a % q <==> b % q == 0
  {
    if b % q == 0 {
      CongruentEqual(a + b, a, b / q, q);
    }
    if (a + b) % q == a % q {
      assert b == ((a + b) / q - a / q) * q;
      CongruentEqual(b, 0, (a + b) / q - a / q, q);
    }
  }

  /**
    The left-hand side of the verification equation for the response computed
    with witness w' against a claim made with witness w: the honest commitment
    shifted by base·c·(w - w').
  */
  lemma ResponseEquation(p: SchnorrDLOG, w: int, w': int, r: int, c: int)
    requires p.instance.claim == Mul(p.group.q, p.instance.base, w)
    ensures
      var q := p.group.q;
      var base := p.instance.base;
      var z := Sub(q, r, Mul(q, c, w'));
      Add(q, Mul(q, base, z), Mul(q, p.instance.claim, c)) == (base * r + base * c * (w - w')) % q
  {
    var q := p.group.q;
    var base := p.instance.base;
    var t := Mul(q, c, w');
    var k := (c * w') / q;
    var x := base * (r - t);
    var y := (base * w) * c;
    MulReduce(base, r - t, q);
    MulReduce(base * w, c, q);
    assert Mul(q, base, Sub(q, r, t)) == x % q;
    assert Mul(q, p.instance.claim, c) == y % q;
    AddReduce(x, y % q, q);
    AddReduce(x, y, q);
    assert Add(q, x % q, y % q) == (x + y) % q;
    ShiftedByMultiple(base, r, t, w, w', c, k, q);
    CongruentEqual(x + y, base * r + base * c * (w - w'), base * k, q);
  }

  /** The ring identity behind ResponseEquation, with t = c·w' mod q = c·w' - k·q. */
  lemma ShiftedByMultiple(base: int, r: int, t: int, w: int, w': int, c: int, k: int, q: int)
    requires c * w' == k * q + t
    ensures base * (r - t) + (base * w) * c == (base * r + base * c * (w - w')) + (base * k) * q
  {
  }

  /**
    Completeness: when claim = base·w, an honest transcript for any readable
    challenge is accepted, and simulation rebuilds its commitment.
  */
  lemma HonestTranscriptAccepted(p: SchnorrDLOG, w: int, r: int, ch: Challenge)
    requires p.instance.claim == Mul(p.group.q, p.instance.base, w)
    ensures
      var (commitment, st) := ProverCommit(p, w, r);
      var res := ProverResponse(p, st, ch);
      res.Ok? ==>
        && Verifier(p, commitment, ch, res.value) == Ok(())
        && SimulateCommitment(p, ch, res.value) == Ok(commitment)
  {
    if p.group.fromRandomBytes(ch).Some? {
      var c := p.group.fromRandomBytes(ch).value;
      ResponseEquation(p, w, w, r, c);
      assert p.instance.base * c * (w - w) == 0;
      ModCanonical(Mul(p.group.q, p.instance.base, r), p.group.q);
    }
  }

  /**
    A response computed with the wrong witness w' (w' ≠ w mod q) against a
    claim base·w, for a base other than the identity in a prime-order group,
    is accepted exactly when the challenge scalar is zero, and is otherwise
    rejected with VerificationFailed.
  */
  lemma WrongWitnessRejected(p: SchnorrDLOG, w: int, w': int, r: int, ch: Challenge)
    requires IsPrime(p.group.q)
    requires p.instance.claim == Mul(p.group.q, p.instance.base, w)
    requires p.instance.base % p.group.q != 0
    requires w % p.group.q != w' % p.group.q
    requires p.group.fromRandomBytes(ch).Some?
    ensures
      var (commitment, st) := ProverCommit(p, w', r);
      var res := ProverResponse(p, st, ch);
      var c := p.group.fromRandomBytes(ch).value;
      && res.Ok?
      && (Verifier(p, commitment, ch, res.value) == Ok(()) <==> c % p.group.q == 0)
      && (c % p.group.q != 0 ==> Verifier(p, commitment, ch, res.value) == Err(VerificationFailed))
  {
    var q := p.group.q;
    var base := p.instance.base;
    var c := p.group.fromRandomBytes(ch).value;
    ResponseEquation(p, w, w', r, c);
    ModCanonical(Mul(q, base, r), q);
    ShiftInvariant(base * r, base * c * (w - w'), q);
    assert (w - w') % q != 0 by {
      if (w - w') % q == 0 {
        CongruentEqual(w, w', (w - w') / q, q);
      }
    }
    ShiftVanishes(q, base, c, w - w');
  }

  /** In a prime-order group, base·c·d vanishes exactly when c does, for base and d nonzero. */
  lemma ShiftVanishes(q: Order, base: int, c: int, d: int)
    requires IsPrime(q)
    requires base % q != 0 && d % q != 0
    ensures (base * c * d) % q == 0 <==> c % q == 0
  {
    if c % q == 0 {
      var k := c / q;
      assert base * c * d == 0 + (base * k * d) * q by {
        assert c == k * q;
      }
      CongruentEqual(base * c * d, 0, base * k * d, q);
    } else {
      NoZeroDivisors(q, base, c);
      NoZeroDivisors(q, base * c, d);
    }
  }

  /** Adding the same point is injective on canonical points. */
  lemma AddCancel(q: Order, a: int, b: int, y: int)
    requires IsCanonical(q, a) && IsCanonical(q, b)
    requires Add(q, a, y) == Add(q, b, y)
    ensures a == b
  {
    var d := b - a;
    ShiftInvariant(a + y, d, q);
    assert d % q == 0;
    if d >= 0 {
      ModCanonical(d, q);
    } else {
      CongruentEqual(-d, 0, -(d / q), q);
      ModCanonical(-d, q);
    }
  }

  /**
    Tampering: changing the response of an accepted transcript to a different
    scalar makes the verifier reject it, for a base other than the identity in
    a prime-order group.
  */
  lemma TamperedResponseRejected(p: SchnorrDLOG, commitment: int, ch: Challenge, z: int, z': int)
    requires IsPrime(p.group.q)
    requires p.instance.base % p.group.q != 0
    requires z % p.group.q != z' % p.group.q
    requires Verifier(p, commitment, ch, z) == Ok(())
    ensures Verifier(p, commitment, ch, z') == Err(VerificationFailed)
  {
    var q := p.group.q;
    var c := p.group.fromRandomBytes(ch).value;
    MulCancel(q, p.instance.base, z, z');
    if Verifier(p, commitment, ch, z') == Ok(()) {
      AddCancel(q, Mul(q, p.instance.base, z), Mul(q, p.instance.base, z'), Mul(q, p.instance.claim, c));
    }
  }

  /** For a true claim base·w, the Schnorr protocol is complete and its simulator is exact. */
  lemma CompleteForTrueClaim(p: SchnorrDLOG, w: int)
    requires p.instance.claim == Mul(p.group.q, p.instance.base, w)
    ensures Complete(AsSigma(p), w)
    ensures SimulatorReproduces(AsSigma(p), w)
  {
    forall r: int, ch: Challenge
      ensures HonestResponse(AsSigma(p), w, r, ch).Ok? ==>
        AsSigma(p).verifier(HonestCommitment(AsSigma(p), w, r), ch, HonestResponse(AsSigma(p), w, r, ch).value) == Ok(())
      ensures HonestResponse(AsSigma(p), w, r, ch).Ok? ==>
        AsSigma(p).simulateCommitment(ch, HonestResponse(AsSigma(p), w, r, ch).value) == Ok(HonestCommitment(AsSigma(p), w, r))
    {
      HonestTranscriptAccepted(p, w, r, ch);
    }
  }
}
