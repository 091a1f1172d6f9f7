/** Proof of possession: knowledge of sk with pk == sk * G. */
module Possession {
  import opened Scalars
  import opened Bytes
  import opened Curves
  import opened Transcripts
  import opened Sigma
  import opened FiatShamir
  import opened ProofTranscripts
  import opened CommitmentEquality

  datatype PopProof = PopProof(Z: nat, A: Affine)
  {
    function View(): Proof { Proof([A], [Z]) }
  }

  function PopEquations(c: Curve, pk: Affine): seq<Equation>
  {
    [Equation([Term(0, c.G)], pk)]
  }

  function PopClaim(c: Curve, pk: Affine): Claim
  {
    Claim(Ascii("pop"), [Labelled(Ascii("pk"), pk)], [], [Ascii("A")], Ascii("pop_challenge"),
          PopEquations(c, pk), ValidPublicKey(c, pk), ValidPublicKey(c, pk), true)
  }

  method AppendPop(c: Curve, t: Transcript, pk: Affine, A: Affine)
    requires t.Valid()
    modifies t`state, t`pending
    ensures t.Valid() && t.pending == old(t.pending) + Items(PopClaim(c, pk), [A])
  {
    AppendProof(t, Ascii("pop"), [Labelled(Ascii("pk"), pk)], [], [Labelled(Ascii("A"), A)], PopClaim(c, pk), [A]);
  }

  /** Fails, leaving the transcript alone, on an invalid key. */
  method ProvePossession(c: Curve, keccak: bytes -> Digest, sk: nat, pk: Affine, transcript: Transcript?, k: nat)
    returns (proof: Option<PopProof>)
    requires c.q > 0 && Usable(transcript, keccak)
    modifies transcript
    ensures proof.None? <==> !c.OnCurve(pk) || pk == INFINITY
    ensures AllIndexed(1, PopEquations(c, pk))
    ensures var claim, start := PopClaim(c, pk), old(StartState(transcript));
            && (proof.Some? ==> proof.value.View() == HonestProof(c, keccak, claim, start, [sk], [k]))
            && EndsIn(transcript, if proof.None? then start
                                  else StateAfter(keccak, claim, start, proof.value.View().commitments))
  {
    CombineOne(c, [k], Term(0, c.G));
    if !ValidPublicKey(c, pk) {
      return None;
    }
    var a := c.Mul(k, c.G);
    assert Commit(c, PopEquations(c, pk), [k]) == [a];

    var t := OpenTranscript(transcript, keccak);
    ghost var before := t.pending;
    AppendPop(c, t, pk, a);
    var e := DrawChallenge(c, t, PopClaim(c, pk), [a], before, Ascii("pop_challenge"));

    var eSk := MulQ(c.q, e, sk);
    var z := AddQ(c.q, k, eSk);
    proof := Some(PopProof(z, a));
  }

  method CheckPossession(c: Curve, proof: PopProof, pk: Affine, e: nat) returns (ok: bool)
    ensures ok == Check(c, PopEquations(c, pk), [proof.A], e, [proof.Z])
  {
    // Z*G == A + e*pk
    var lhs := c.Mul(proof.Z, c.G);
    var rhs := AddAffine(c, proof.A, c.Mul(e, pk));
    RowOne(c, Term(0, c.G), pk, proof.A, e, [proof.Z]);
    ok := lhs == rhs;
    assert RowHolds(c, PopEquations(c, pk)[0], [proof.A][0], e, [proof.Z]) <==> ok;
  }

  method VerifyPossession(c: Curve, keccak: bytes -> Digest, proof: PopProof, pk: Affine, transcript: Transcript?)
    returns (ok: bool)
    requires c.q > 0 && Usable(transcript, keccak)
    modifies transcript
    ensures var claim := PopClaim(c, pk);
            && ok == Accepts(c, keccak, claim, old(StartState(transcript)), proof.View())
            && EndsIn(transcript, VerifierState(c, keccak, claim, old(StartState(transcript)),
                                                proof.View().commitments))
  {
    if !ValidPublicKey(c, pk) {
      return false;
    }
    if !c.OnCurve(proof.A) || proof.A == INFINITY {
      assert !ProperPoint(c, proof.View().commitments[0]);
      return false;
    }

    var t := OpenTranscript(transcript, keccak);
    ghost var before := t.pending;
    AppendPop(c, t, pk, proof.A);
    var e := DrawChallenge(c, t, PopClaim(c, pk), [proof.A], before, Ascii("pop_challenge"));

    ok := CheckPossession(c, proof, pk, e);
  }

  /** Two accepting transcripts with the same commitment and different challenges yield the secret key. */
  lemma PossessionSoundness(c: Curve, pk: Affine, A: Affine, e1: nat, Z1: nat, e2: nat, Z2: nat) returns (sk: nat)
    requires c.Valid() && c.OnCurve(pk) && c.OnCurve(A)
    requires e1 < c.q && e2 < c.q && e1 != e2 && Z1 < c.q && Z2 < c.q
    requires Check(c, PopEquations(c, pk), [A], e1, [Z1]) && Check(c, PopEquations(c, pk), [A], e2, [Z2])
    ensures sk < c.q && c.Mul(sk, c.G) == pk
    ensures forall sk': nat :: sk' < c.q && c.Mul(sk', c.G) == pk ==> sk' == sk
  {
    var eqs := PopEquations(c, pk);
    SpecialSoundness(c, eqs, [A], e1, [Z1], e2, [Z2]);
    var w := Extract(c.q, e1, [Z1], e2, [Z2]);
    sk := w[0];
    assert Combine(c, w, eqs[0].terms) == eqs[0].target;
    forall sk': nat | sk' < c.q && c.Mul(sk', c.G) == pk ensures sk' == sk {
      MulInjective(c, sk', sk, c.G);
    }
  }

  /** An honest proof is accepted exactly when neither the key nor the nonce commitment is the identity. */
  lemma HonestPossessionAccepted(c: Curve, keccak: bytes -> Digest, state: bytes, pk: Affine, sk: nat, k: nat)
    requires c.Valid() && pk == c.Mul(sk, c.G)
    ensures AllIndexed(1, PopEquations(c, pk))
    ensures Accepts(c, keccak, PopClaim(c, pk), state, HonestProof(c, keccak, PopClaim(c, pk), state, [sk], [k]))
            <==> sk % c.q != 0 && k % c.q != 0
  {
    PopSolved(c, pk, sk);
    PopAdmitted(c, pk, sk, k);
    HonestAccepted(c, keccak, PopClaim(c, pk), state, [sk], [k]);
  }

  lemma PopSolved(c: Curve, pk: Affine, sk: nat)
    requires c.Valid() && pk == c.Mul(sk, c.G)
    ensures ClaimFits(c, 1, PopClaim(c, pk)) && Satisfies(c, PopEquations(c, pk), [sk])
  {
    MulClosed(c, sk, c.G);
    CombineOne(c, [sk], Term(0, c.G));
  }

  lemma PopAdmitted(c: Curve, pk: Affine, sk: nat, k: nat)
    requires c.Valid() && pk == c.Mul(sk, c.G)
    ensures AllIndexed(1, PopEquations(c, pk))
    ensures Admitted(c, PopClaim(c, pk), Commit(c, PopEquations(c, pk), [k])) <==> sk % c.q != 0 && k % c.q != 0
  {
    MulClosed(c, sk, c.G);
    MulClosed(c, k, c.G);
    CombineOne(c, [k], Term(0, c.G));
    var A := Commit(c, PopEquations(c, pk), [k]);
    assert A == [c.Mul(k, c.G)];
    ZeroIffIdentity(c, sk);
    ZeroIffIdentity(c, k);
    if Admitted(c, PopClaim(c, pk), A) {
      assert ProperPoint(c, A[0]);
    }
  }
}
