/** Absorbing a pending ciphertext: it and a fresh one under the prover's key encrypt the same amount. */
module ApplyPending {
  import opened Scalars
  import opened Bytes
  import opened Curves
  import opened Transcripts
  import opened Sigma
  import opened FiatShamir
  import opened ProofTranscripts
  import opened Ciphertexts
  import opened DiscreteLogs
  import opened ElGamal

  datatype ApplyPendingProof = ApplyPendingProof(
    Sm: nat, Ssk: nat, Srn: nat,
    R1: Affine, R2: Affine, R3: Affine, R4: Affine)
  {
    function View(): Proof { Proof([R1, R2, R3, R4], [Sm, Ssk, Srn]) }
  }

  /** The unknowns are m, sk and rNew. */
  function ApplyEquations(c: Curve, pk: Affine, pending: Ciphertext, newCt: Ciphertext): seq<Equation>
  {
    [Equation([Term(0, c.G), Term(1, pending.C1)], pending.C2),
     Equation([Term(1, c.G)], pk),
     Equation([Term(2, c.G)], newCt.C1),
     Equation([Term(0, c.G), Term(2, pk)], newCt.C2)]
  }

  function ApplyClaim(c: Curve, pk: Affine, pending: Ciphertext, newCt: Ciphertext): Claim
  {
    Claim(Ascii("apply_pending"), [Labelled(Ascii("pk"), pk),
           Labelled(Ascii("pending_C1"), pending.C1), Labelled(Ascii("pending_C2"), pending.C2),
           Labelled(Ascii("new_C1"), newCt.C1), Labelled(Ascii("new_C2"), newCt.C2)],
          [],
          [Ascii("R1"), Ascii("R2"), Ascii("R3"), Ascii("R4")],
          Ascii("apply_pending_challenge"),
          ApplyEquations(c, pk, pending, newCt),
          true,
          ValidPublicKey(c, pk) && ValidCiphertext(c, pending) && ValidCiphertext(c, newCt), false)
  }

  /** R1 = km*G + ksk*pending_C1, R2 = ksk*G, R3 = krn*G, R4 = km*G + krn*pk. */
  method CommitApply(c: Curve, pk: Affine, pending: Ciphertext, ghost newCt: Ciphertext, km: nat, ksk: nat, krn: nat)
    returns (r1: Affine, r2: Affine, r3: Affine, r4: Affine)
    ensures AllIndexed(3, ApplyEquations(c, pk, pending, newCt))
    ensures Commit(c, ApplyEquations(c, pk, pending, newCt), [km, ksk, krn]) == [r1, r2, r3, r4]
  {
    var k := [km, ksk, krn];
    CombineTwo(c, k, Term(0, c.G), Term(1, pending.C1));
    CombineOne(c, k, Term(1, c.G));
    CombineOne(c, k, Term(2, c.G));
    CombineTwo(c, k, Term(0, c.G), Term(2, pk));

    var r1Jac := FromAffine(c.Mul(km, c.G));
    r1Jac := c.JacAdd(r1Jac, FromAffine(c.Mul(ksk, pending.C1)));
    r1 := c.Normalize(r1Jac);
    r2 := c.Mul(ksk, c.G);
    r3 := c.Mul(krn, c.G);
    var r4Jac := FromAffine(c.Mul(km, c.G));
    r4Jac := c.JacAdd(r4Jac, FromAffine(c.Mul(krn, pk)));
    r4 := c.Normalize(r4Jac);
  }

  method ProveApplyPending(c: Curve, keccak: bytes -> Digest, sk: nat, pk: Affine, pending: Ciphertext,
                           newCt: Ciphertext, amount: uint64, rNew: nat, transcript: Transcript?,
                           km: nat, ksk: nat, krn: nat)
    returns (proof: ApplyPendingProof)
    requires c.q > 0 && Usable(transcript, keccak)
    modifies transcript
    ensures var claim := ApplyClaim(c, pk, pending, newCt);
            && AllIndexed(3, claim.equations)
            && proof.View() == HonestProof(c, keccak, claim, old(StartState(transcript)),
                                           [amount % c.q, sk, rNew], [km, ksk, krn])
            && EndsIn(transcript, StateAfter(keccak, claim, old(StartState(transcript)), proof.View().commitments))
  {
    ghost var claim := ApplyClaim(c, pk, pending, newCt);
    var r1, r2, r3, r4 := CommitApply(c, pk, pending, newCt, km, ksk, krn);

    var t := OpenTranscript(transcript, keccak);
    ghost var before := t.pending;
    var points := [Labelled(Ascii("pk"), pk),
                   Labelled(Ascii("pending_C1"), pending.C1), Labelled(Ascii("pending_C2"), pending.C2),
                   Labelled(Ascii("new_C1"), newCt.C1), Labelled(Ascii("new_C2"), newCt.C2)];
    var commitments := [Labelled(Ascii("R1"), r1), Labelled(Ascii("R2"), r2),
                        Labelled(Ascii("R3"), r3), Labelled(Ascii("R4"), r4)];
    AppendProof(t, Ascii("apply_pending"), points, [], commitments, claim, [r1, r2, r3, r4]);
    var e := DrawChallenge(c, t, claim, [r1, r2, r3, r4], before, Ascii("apply_pending_challenge"));

    var tmp := MulQ(c.q, e, amount % c.q);
    var sm := AddQ(c.q, km, tmp);
    tmp := MulQ(c.q, e, sk);
    var ssk := AddQ(c.q, ksk, tmp);
    tmp := MulQ(c.q, e, rNew);
    var srn := AddQ(c.q, krn, tmp);
    proof := ApplyPendingProof(sm, ssk, srn, r1, r2, r3, r4);
    assert Respond(c.q, [km, ksk, krn], e, [amount % c.q, sk, rNew]) == [sm, ssk, srn];
  }

  /** sum of two products == R + e * target, all through Jacobian coordinates. */
  method CheckTwo(c: Curve, a: nat, A: Affine, b: nat, B: Affine, R: Affine, e: nat, target: Affine) returns (ok: bool)
    ensures ok <==> c.Plus(c.Mul(a, A), c.Mul(b, B)) == c.Plus(R, c.Mul(e, target))
  {
    var lhsJac := FromAffine(c.Mul(a, A));
    lhsJac := c.JacAdd(lhsJac, FromAffine(c.Mul(b, B)));
    var rhsJac := FromAffine(R);
    rhsJac := c.JacAdd(rhsJac, FromAffine(c.Mul(e, target)));
    ok := c.Normalize(lhsJac) == c.Normalize(rhsJac);
  }

  /** one product == R + e * target */
  method CheckOne(c: Curve, a: nat, A: Affine, R: Affine, e: nat, target: Affine) returns (ok: bool)
    ensures ok <==> c.Mul(a, A) == c.Plus(R, c.Mul(e, target))
  {
    var lhs := c.Mul(a, A);
    var rhsJac := FromAffine(R);
    rhsJac := c.JacAdd(rhsJac, FromAffine(c.Mul(e, target)));
    ok := lhs == c.Normalize(rhsJac);
  }

  method CheckApply(c: Curve, proof: ApplyPendingProof, pk: Affine, pending: Ciphertext, newCt: Ciphertext, e: nat)
    returns (ok: bool)
    ensures ok == Check(c, ApplyEquations(c, pk, pending, newCt), proof.View().commitments, e, proof.View().responses)
  {
    ghost var eqs, A, z := ApplyEquations(c, pk, pending, newCt), proof.View().commitments, proof.View().responses;
    RowTwo(c, Term(0, c.G), Term(1, pending.C1), pending.C2, proof.R1, e, z);
    RowOne(c, Term(1, c.G), pk, proof.R2, e, z);
    RowOne(c, Term(2, c.G), newCt.C1, proof.R3, e, z);
    RowTwo(c, Term(0, c.G), Term(2, pk), newCt.C2, proof.R4, e, z);

    // Sm*G + Ssk*pending_C1 == R1 + e*pending_C2
    ok := CheckTwo(c, proof.Sm, c.G, proof.Ssk, pending.C1, proof.R1, e, pending.C2);
    if !ok {
      assert !RowHolds(c, eqs[0], A[0], e, z);
      return;
    }
    // Ssk*G == R2 + e*pk
    ok := CheckOne(c, proof.Ssk, c.G, proof.R2, e, pk);
    if !ok {
      assert !RowHolds(c, eqs[1], A[1], e, z);
      return;
    }
    // Srn*G == R3 + e*new_C1
    ok := CheckOne(c, proof.Srn, c.G, proof.R3, e, newCt.C1);
    if !ok {
      assert !RowHolds(c, eqs[2], A[2], e, z);
      return;
    }
    // Sm*G + Srn*pk == R4 + e*new_C2
    ok := CheckTwo(c, proof.Sm, c.G, proof.Srn, pk, proof.R4, e, newCt.C2);
    assert RowHolds(c, eqs[3], A[3], e, z) <==> ok;
  }

  method VerifyApplyPending(c: Curve, keccak: bytes -> Digest, proof: ApplyPendingProof, pk: Affine,
                            pending: Ciphertext, newCt: Ciphertext, transcript: Transcript?) returns (ok: bool)
    requires c.q > 0 && Usable(transcript, keccak)
    modifies transcript
    ensures var claim := ApplyClaim(c, pk, pending, newCt);
            && ok == Accepts(c, keccak, claim, old(StartState(transcript)), proof.View())
            && EndsIn(transcript, VerifierState(c, keccak, claim, old(StartState(transcript)),
                                                proof.View().commitments))
  {
    ghost var claim := ApplyClaim(c, pk, pending, newCt);
    if !ValidPublicKey(c, pk) {
      return false;
    }
    if !ValidCiphertext(c, pending) {
      return false;
    }
    if !ValidCiphertext(c, newCt) {
      return false;
    }

    var t := OpenTranscript(transcript, keccak);
    ghost var before := t.pending;
    var points := [Labelled(Ascii("pk"), pk),
                   Labelled(Ascii("pending_C1"), pending.C1), Labelled(Ascii("pending_C2"), pending.C2),
                   Labelled(Ascii("new_C1"), newCt.C1), Labelled(Ascii("new_C2"), newCt.C2)];
    var commitments := [Labelled(Ascii("R1"), proof.R1), Labelled(Ascii("R2"), proof.R2),
                        Labelled(Ascii("R3"), proof.R3), Labelled(Ascii("R4"), proof.R4)];
    AppendProof(t, Ascii("apply_pending"), points, [], commitments, claim, [proof.R1, proof.R2, proof.R3, proof.R4]);
    var e := DrawChallenge(c, t, claim, proof.View().commitments, before, Ascii("apply_pending_challenge"));
    ok := CheckApply(c, proof, pk, pending, newCt, e);
  }

  // ---------- what an accepted proof means ----------

  /** The four relations: sk is the key's secret and takes pending to m, and newCt encrypts m with rNew. */
  ghost predicate Reencrypts(c: Curve, pk: Affine, pending: Ciphertext, newCt: Ciphertext, m: nat, sk: nat, rNew: nat)
  {
    && pending.C2 == c.Plus(c.Mul(m, c.G), c.Mul(sk, pending.C1))
    && pk == c.Mul(sk, c.G)
    && Encrypts(c, newCt, pk, m, rNew)
  }

  lemma ApplyFits(c: Curve, pk: Affine, pending: Ciphertext, newCt: Ciphertext)
    requires c.Valid() && c.OnCurve(pk) && c.OnCurve(pending.C1) && c.OnCurve(pending.C2)
    requires c.OnCurve(newCt.C1) && c.OnCurve(newCt.C2)
    ensures ClaimFits(c, 3, ApplyClaim(c, pk, pending, newCt))
  {
  }

  lemma ApplyMeaning(c: Curve, pk: Affine, pending: Ciphertext, newCt: Ciphertext, m: nat, sk: nat, rNew: nat)
    ensures Satisfies(c, ApplyEquations(c, pk, pending, newCt), [m, sk, rNew])
            <==> Reencrypts(c, pk, pending, newCt, m, sk, rNew)
  {
    var eqs, x := ApplyEquations(c, pk, pending, newCt), [m, sk, rNew];
    CombineTwo(c, x, Term(0, c.G), Term(1, pending.C1));
    CombineOne(c, x, Term(1, c.G));
    CombineOne(c, x, Term(2, c.G));
    CombineTwo(c, x, Term(0, c.G), Term(2, pk));
    if Satisfies(c, eqs, x) {
      assert Combine(c, x, eqs[0].terms) == eqs[0].target && Combine(c, x, eqs[1].terms) == eqs[1].target;
      assert Combine(c, x, eqs[2].terms) == eqs[2].target && Combine(c, x, eqs[3].terms) == eqs[3].target;
    }
  }

  /** A true statement makes both ciphertexts unmask to the same point. */
  lemma ReencryptsUnmasks(c: Curve, pk: Affine, pending: Ciphertext, newCt: Ciphertext, m: nat, sk: nat, rNew: nat)
    requires c.Valid() && c.OnCurve(pending.C1) && c.OnCurve(pending.C2)
    requires Reencrypts(c, pk, pending, newCt, m, sk, rNew)
    ensures Unmask(c, pending, sk) == Unmask(c, newCt, sk) == c.Mul(m, c.G)
  {
    MulClosed(c, m, c.G);
    MulClosed(c, sk, pending.C1);
    MinusIff(c, pending.C2, c.Mul(sk, pending.C1), c.Mul(m, c.G));
    UnmaskEncryption(c, newCt, pk, sk, m, rNew);
  }

  /** An honest re-encryption of a pending transfer solves the statement. */
  lemma ApplyHonest(c: Curve, sk: nat, pk: Affine, pending: Ciphertext, newCt: Ciphertext,
                    amount: uint64, r: nat, rNew: nat)
    requires c.Valid() && pk == c.Mul(sk, c.G) && pk != INFINITY
    requires EncryptWithRandomness(c, amount, pk, r) == Some(pending)
    requires EncryptWithRandomness(c, amount, pk, rNew) == Some(newCt)
    ensures Satisfies(c, ApplyEquations(c, pk, pending, newCt), [amount % c.q, sk, rNew])
  {
    MulMod(c, amount, c.G);
    MulCommutes(c, r, sk, c.G);
    ApplyMeaning(c, pk, pending, newCt, amount % c.q, sk, rNew);
  }

  /** An honest proof is accepted exactly when neither the key nor either C1 is the identity, for all nonces. */
  lemma HonestApplyAccepted(c: Curve, keccak: bytes -> Digest, state: bytes, pk: Affine, pending: Ciphertext,
                            newCt: Ciphertext, m: nat, sk: nat, rNew: nat, k: seq<nat>)
    requires c.Valid() && c.OnCurve(pending.C1) && Reencrypts(c, pk, pending, newCt, m, sk, rNew) && |k| == 3
    ensures AllIndexed(3, ApplyClaim(c, pk, pending, newCt).equations)
    ensures var claim := ApplyClaim(c, pk, pending, newCt);
            Accepts(c, keccak, claim, state, HonestProof(c, keccak, claim, state, [m, sk, rNew], k))
            <==> pk != INFINITY && pending.C1 != INFINITY && newCt.C1 != INFINITY
  {
    MulClosed(c, sk, c.G);
    MulClosed(c, m, c.G);
    MulClosed(c, sk, pending.C1);
    PlusClosed(c, c.Mul(m, c.G), c.Mul(sk, pending.C1));
    EncryptsIsOnCurve(c, newCt, pk, m, rNew);
    ApplyFits(c, pk, pending, newCt);
    ApplyMeaning(c, pk, pending, newCt, m, sk, rNew);
    HonestAccepted(c, keccak, ApplyClaim(c, pk, pending, newCt), state, [m, sk, rNew], k);
  }

  /**
   Two accepting transcripts with the same commitments and different challenges yield m, sk and
   rNew for all four relations; under that secret key, the only one of pk, pending and new
   ciphertext decrypt alike in every solver: to the same value, or both to an error.
   */
  lemma ApplySoundness(c: Curve, pk: Affine, pending: Ciphertext, newCt: Ciphertext, A: seq<Affine>,
                       e1: nat, z1: seq<nat>, e2: nat, z2: seq<nat>, range: nat) returns (m: nat, sk: nat, rNew: nat)
    requires c.Valid() && c.OnCurve(pk) && ValidCiphertext(c, pending) && ValidCiphertext(c, newCt) && AllOnCurve(c, A)
    requires e1 < c.q && e2 < c.q && e1 != e2
    requires |z1| == |z2| == 3 && IsScalars(c.q, z1) && IsScalars(c.q, z2)
    requires Check(c, ApplyEquations(c, pk, pending, newCt), A, e1, z1)
    requires Check(c, ApplyEquations(c, pk, pending, newCt), A, e2, z2)
    ensures m < c.q && sk < c.q && rNew < c.q && Reencrypts(c, pk, pending, newCt, m, sk, rNew)
    ensures forall sk': nat :: sk' < c.q && c.Mul(sk', c.G) == pk ==> sk' == sk
    ensures Solve(c, range, Unmask(c, pending, sk)) == Solve(c, range, Unmask(c, newCt, sk))
    ensures range <= c.q ==> Solve(c, range, Unmask(c, pending, sk)) == if m < range then Some(m % TWO64) else None
  {
    var eqs := ApplyEquations(c, pk, pending, newCt);
    ApplyFits(c, pk, pending, newCt);
    SpecialSoundness(c, eqs, A, e1, z1, e2, z2);
    var w := Extract(c.q, e1, z1, e2, z2);
    m, sk, rNew := w[0], w[1], w[2];
    assert w == [m, sk, rNew];
    ApplyMeaning(c, pk, pending, newCt, m, sk, rNew);
    ReencryptsUnmasks(c, pk, pending, newCt, m, sk, rNew);
    forall sk': nat | sk' < c.q && c.Mul(sk', c.G) == pk ensures sk' == sk {
      MulInjective(c, sk', sk, c.G);
    }
    if range <= c.q {
      SolveMultiple(c, range, m);
      DivModIs(m, c.q, 0, m);
    }
  }
}
