/**
 The six protocols written out. For each: exactly which inputs and equations a verifier accepts, what
 it leaves in the transcript, and which points and scalars a prover returns. The generic theory of
 linear statements is about these equations and no others.
 */
module Explicit {
  import opened Scalars
  import opened Bytes
  import opened Curves
  import opened Transcripts
  import opened Sigma
  import opened FiatShamir
  import opened ProofTranscripts
  import opened Ciphertexts
  import opened Dleq
  import opened Equality
  import opened ApplyPending
  import opened CommitmentEquality
  import opened Possession

  lemma OneRow(c: Curve, eqs: seq<Equation>, A: seq<Affine>, e: nat, z: seq<nat>)
    requires |eqs| == |A| == 1
    ensures Check(c, eqs, A, e, z) <==> RowHolds(c, eqs[0], A[0], e, z)
  {
  }

  lemma TwoRows(c: Curve, eqs: seq<Equation>, A: seq<Affine>, e: nat, z: seq<nat>)
    requires |eqs| == |A| == 2
    ensures Check(c, eqs, A, e, z) <==> RowHolds(c, eqs[0], A[0], e, z) && RowHolds(c, eqs[1], A[1], e, z)
  {
  }

  lemma ThreeRows(c: Curve, eqs: seq<Equation>, A: seq<Affine>, e: nat, z: seq<nat>)
    requires |eqs| == |A| == 3
    ensures Check(c, eqs, A, e, z)
            <==> RowHolds(c, eqs[0], A[0], e, z) && RowHolds(c, eqs[1], A[1], e, z) && RowHolds(c, eqs[2], A[2], e, z)
  {
  }

  lemma FourRows(c: Curve, eqs: seq<Equation>, A: seq<Affine>, e: nat, z: seq<nat>)
    requires |eqs| == |A| == 4
    ensures Check(c, eqs, A, e, z)
            <==> && RowHolds(c, eqs[0], A[0], e, z) && RowHolds(c, eqs[1], A[1], e, z)
                 && RowHolds(c, eqs[2], A[2], e, z) && RowHolds(c, eqs[3], A[3], e, z)
  {
  }

  // ---------- what is accepted ----------

  lemma DleqDecides(c: Curve, keccak: bytes -> Digest, state: bytes, proof: DLEQProof, pk: Affine, ct: Ciphertext,
                    amount: uint64)
    requires c.q > 0
    ensures var claim := DleqClaim(c, pk, ct, amount);
            var valid := c.OnCurve(pk) && pk != INFINITY && c.OnCurve(ct.C1) && c.OnCurve(ct.C2) && ct.C1 != INFINITY;
            var e := ChallengeFor(c, keccak, claim, state, [proof.R1, proof.R2]);
            && (Accepts(c, keccak, claim, state, proof.View())
                <==> && valid
                     && c.Mul(proof.S, c.G) == c.Plus(proof.R1, c.Mul(e, pk))
                     && c.Mul(proof.S, ct.C1) == c.Plus(proof.R2, c.Mul(e, c.Minus(ct.C2, c.Mul(amount, c.G)))))
            && (!valid ==> VerifierState(c, keccak, claim, state, [proof.R1, proof.R2]) == state)
  {
    var claim, A, z := DleqClaim(c, pk, ct, amount), [proof.R1, proof.R2], [proof.S];
    var e := ChallengeFor(c, keccak, claim, state, A);
    RowOne(c, Term(0, c.G), pk, proof.R1, e, z);
    RowOne(c, Term(0, ct.C1), c.Minus(ct.C2, c.Mul(amount, c.G)), proof.R2, e, z);
    TwoRows(c, claim.equations, A, e, z);
  }

  lemma EqualityDecides(c: Curve, keccak: bytes -> Digest, state: bytes, proof: EqualityProof,
                        pk1: Affine, pk2: Affine, pk3: Affine, ct1: Ciphertext, ct2: Ciphertext, ct3: Ciphertext)
    requires c.q > 0
    ensures var claim := EqualityClaim(c, pk1, pk2, pk3, ct1, ct2, ct3);
            var A := [proof.R11, proof.R21, proof.R12, proof.R22, proof.R13, proof.R23];
            var valid := && c.OnCurve(pk1) && pk1 != INFINITY && c.OnCurve(pk2) && pk2 != INFINITY
                         && c.OnCurve(pk3) && pk3 != INFINITY
                         && c.OnCurve(ct1.C1) && c.OnCurve(ct1.C2) && ct1.C1 != INFINITY
                         && c.OnCurve(ct2.C1) && c.OnCurve(ct2.C2) && ct2.C1 != INFINITY
                         && c.OnCurve(ct3.C1) && c.OnCurve(ct3.C2) && ct3.C1 != INFINITY;
            var e := ChallengeFor(c, keccak, claim, state, A);
            var SmG := c.Mul(proof.Sm, c.G);
            && (Accepts(c, keccak, claim, state, proof.View())
                <==> && valid
                     && c.Mul(proof.Sr1, c.G) == c.Plus(proof.R11, c.Mul(e, ct1.C1))
                     && c.Plus(SmG, c.Mul(proof.Sr1, pk1)) == c.Plus(proof.R21, c.Mul(e, ct1.C2))
                     && c.Mul(proof.Sr2, c.G) == c.Plus(proof.R12, c.Mul(e, ct2.C1))
                     && c.Plus(SmG, c.Mul(proof.Sr2, pk2)) == c.Plus(proof.R22, c.Mul(e, ct2.C2))
                     && c.Mul(proof.Sr3, c.G) == c.Plus(proof.R13, c.Mul(e, ct3.C1))
                     && c.Plus(SmG, c.Mul(proof.Sr3, pk3)) == c.Plus(proof.R23, c.Mul(e, ct3.C2)))
            && (!valid ==> VerifierState(c, keccak, claim, state, A) == state)
  {
    var pks, cts := [pk1, pk2, pk3], [ct1, ct2, ct3];
    var r1s, r2s := [proof.R11, proof.R12, proof.R13], [proof.R21, proof.R22, proof.R23];
    var srs := [proof.Sr1, proof.Sr2, proof.Sr3];
    var e := ChallengeFor(c, keccak, EqualityClaim(c, pk1, pk2, pk3, ct1, ct2, ct3), state, proof.View().commitments);
    ThreeValid(c, pk1, pk2, pk3, ct1, ct2, ct3);
    Interleave3(r1s, r2s);
    Prepend3(proof.Sm, srs);
    KeysHoldIffCheck(c, pks, cts, r1s, r2s, proof.Sm, srs, e);
    ThreeKeysHold(c, pks, cts, r1s, r2s, proof.Sm, srs, e);
  }

  lemma ThreeKeysHold(c: Curve, pks: seq<Affine>, cts: seq<Ciphertext>, r1s: seq<Affine>, r2s: seq<Affine>,
                      sm: nat, srs: seq<nat>, e: nat)
    requires |pks| == |cts| == |r1s| == |r2s| == |srs| == 3
    ensures KeysHold(c, pks, cts, r1s, r2s, sm, srs, e, 3)
            <==> && KeyHolds(c, pks[0], cts[0], r1s[0], r2s[0], sm, srs[0], e)
                 && KeyHolds(c, pks[1], cts[1], r1s[1], r2s[1], sm, srs[1], e)
                 && KeyHolds(c, pks[2], cts[2], r1s[2], r2s[2], sm, srs[2], e)
  {
  }

  lemma Equality2Decides(c: Curve, keccak: bytes -> Digest, state: bytes, proof: Equality2Proof,
                         pk1: Affine, pk2: Affine, ct1: Ciphertext, ct2: Ciphertext)
    requires c.q > 0
    ensures var claim := Equality2Claim(c, pk1, pk2, ct1, ct2);
            var A := [proof.R11, proof.R21, proof.R12, proof.R22];
            var valid := && c.OnCurve(pk1) && pk1 != INFINITY && c.OnCurve(pk2) && pk2 != INFINITY
                         && c.OnCurve(ct1.C1) && c.OnCurve(ct1.C2) && ct1.C1 != INFINITY
                         && c.OnCurve(ct2.C1) && c.OnCurve(ct2.C2) && ct2.C1 != INFINITY;
            var e := ChallengeFor(c, keccak, claim, state, A);
            var SmG := c.Mul(proof.Sm, c.G);
            && (Accepts(c, keccak, claim, state, proof.View())
                <==> && valid
                     && c.Mul(proof.Sr1, c.G) == c.Plus(proof.R11, c.Mul(e, ct1.C1))
                     && c.Plus(SmG, c.Mul(proof.Sr1, pk1)) == c.Plus(proof.R21, c.Mul(e, ct1.C2))
                     && c.Mul(proof.Sr2, c.G) == c.Plus(proof.R12, c.Mul(e, ct2.C1))
                     && c.Plus(SmG, c.Mul(proof.Sr2, pk2)) == c.Plus(proof.R22, c.Mul(e, ct2.C2)))
            && (!valid ==> VerifierState(c, keccak, claim, state, A) == state)
  {
    var pks, cts := [pk1, pk2], [ct1, ct2];
    var r1s, r2s, srs := [proof.R11, proof.R12], [proof.R21, proof.R22], [proof.Sr1, proof.Sr2];
    var e := ChallengeFor(c, keccak, Equality2Claim(c, pk1, pk2, ct1, ct2), state, proof.View().commitments);
    TwoValid(c, pk1, pk2, ct1, ct2);
    Interleave2(r1s, r2s);
    Prepend2(proof.Sm, srs);
    KeysHoldIffCheck(c, pks, cts, r1s, r2s, proof.Sm, srs, e);
    TwoKeysHold(c, pks, cts, r1s, r2s, proof.Sm, srs, e);
  }

  lemma TwoKeysHold(c: Curve, pks: seq<Affine>, cts: seq<Ciphertext>, r1s: seq<Affine>, r2s: seq<Affine>,
                    sm: nat, srs: seq<nat>, e: nat)
    requires |pks| == |cts| == |r1s| == |r2s| == |srs| == 2
    ensures KeysHold(c, pks, cts, r1s, r2s, sm, srs, e, 2)
            <==> && KeyHolds(c, pks[0], cts[0], r1s[0], r2s[0], sm, srs[0], e)
                 && KeyHolds(c, pks[1], cts[1], r1s[1], r2s[1], sm, srs[1], e)
  {
  }

  lemma ApplyDecides(c: Curve, keccak: bytes -> Digest, state: bytes, proof: ApplyPendingProof, pk: Affine,
                     pending: Ciphertext, newCt: Ciphertext)
    requires c.q > 0
    ensures var claim := ApplyClaim(c, pk, pending, newCt);
            var A := [proof.R1, proof.R2, proof.R3, proof.R4];
            var valid := && c.OnCurve(pk) && pk != INFINITY
                         && c.OnCurve(pending.C1) && c.OnCurve(pending.C2) && pending.C1 != INFINITY
                         && c.OnCurve(newCt.C1) && c.OnCurve(newCt.C2) && newCt.C1 != INFINITY;
            var e := ChallengeFor(c, keccak, claim, state, A);
            var SmG := c.Mul(proof.Sm, c.G);
            && (Accepts(c, keccak, claim, state, proof.View())
                <==> && valid
                     && c.Plus(SmG, c.Mul(proof.Ssk, pending.C1)) == c.Plus(proof.R1, c.Mul(e, pending.C2))
                     && c.Mul(proof.Ssk, c.G) == c.Plus(proof.R2, c.Mul(e, pk))
                     && c.Mul(proof.Srn, c.G) == c.Plus(proof.R3, c.Mul(e, newCt.C1))
                     && c.Plus(SmG, c.Mul(proof.Srn, pk)) == c.Plus(proof.R4, c.Mul(e, newCt.C2)))
            && (!valid ==> VerifierState(c, keccak, claim, state, A) == state)
  {
    var claim, A, z := ApplyClaim(c, pk, pending, newCt), proof.View().commitments, proof.View().responses;
    var e := ChallengeFor(c, keccak, claim, state, A);
    RowTwo(c, Term(0, c.G), Term(1, pending.C1), pending.C2, proof.R1, e, z);
    RowOne(c, Term(1, c.G), pk, proof.R2, e, z);
    RowOne(c, Term(2, c.G), newCt.C1, proof.R3, e, z);
    RowTwo(c, Term(0, c.G), Term(2, pk), newCt.C2, proof.R4, e, z);
    FourRows(c, claim.equations, A, e, z);
  }

  lemma CommitmentDecides(c: Curve, keccak: bytes -> Digest, state: bytes, proof: CommitmentEqualityProof, pk: Affine,
                          H: Affine, ct: Ciphertext, P: Affine)
    requires c.q > 0
    ensures var claim := CommitmentClaim(c, pk, H, ct, P);
            var A := [proof.A1, proof.A2, proof.A3];
            var valid := && c.OnCurve(pk) && pk != INFINITY && c.OnCurve(H) && H != INFINITY
                         && c.OnCurve(ct.C1) && c.OnCurve(ct.C2) && ct.C1 != INFINITY && c.OnCurve(P) && P != INFINITY
                         && c.OnCurve(proof.A1) && proof.A1 != INFINITY && c.OnCurve(proof.A2) && proof.A2 != INFINITY
                         && c.OnCurve(proof.A3) && proof.A3 != INFINITY;
            var e := ChallengeFor(c, keccak, claim, state, A);
            var ZvG := c.Mul(proof.Zv, c.G);
            && (Accepts(c, keccak, claim, state, proof.View())
                <==> && valid
                     && c.Mul(proof.Zr, c.G) == c.Plus(proof.A1, c.Mul(e, ct.C1))
                     && c.Plus(ZvG, c.Mul(proof.Zr, pk)) == c.Plus(proof.A2, c.Mul(e, ct.C2))
                     && c.Plus(ZvG, c.Mul(proof.Zs, H)) == c.Plus(proof.A3, c.Mul(e, P)))
            && (!valid ==> VerifierState(c, keccak, claim, state, A) == state)
  {
    var claim, A, z := CommitmentClaim(c, pk, H, ct, P), proof.View().commitments, proof.View().responses;
    var e := ChallengeFor(c, keccak, claim, state, A);
    RowOne(c, Term(1, c.G), ct.C1, proof.A1, e, z);
    RowTwo(c, Term(0, c.G), Term(1, pk), ct.C2, proof.A2, e, z);
    RowTwo(c, Term(0, c.G), Term(2, H), P, proof.A3, e, z);
    ThreeRows(c, claim.equations, A, e, z);
    AllProper(c, A);
  }

  lemma AllProper(c: Curve, A: seq<Affine>)
    requires |A| == 3
    ensures (forall i :: 0 <= i < |A| ==> ProperPoint(c, A[i]))
            <==> ProperPoint(c, A[0]) && ProperPoint(c, A[1]) && ProperPoint(c, A[2])
  {
  }

  lemma PopDecides(c: Curve, keccak: bytes -> Digest, state: bytes, proof: PopProof, pk: Affine)
    requires c.q > 0
    ensures var claim := PopClaim(c, pk);
            var valid := c.OnCurve(pk) && pk != INFINITY && c.OnCurve(proof.A) && proof.A != INFINITY;
            var e := ChallengeFor(c, keccak, claim, state, [proof.A]);
            && (Accepts(c, keccak, claim, state, proof.View())
                <==> valid && c.Mul(proof.Z, c.G) == c.Plus(proof.A, c.Mul(e, pk)))
            && (!valid ==> VerifierState(c, keccak, claim, state, [proof.A]) == state)
  {
    var claim := PopClaim(c, pk);
    var e := ChallengeFor(c, keccak, claim, state, [proof.A]);
    RowOne(c, Term(0, c.G), pk, proof.A, e, [proof.Z]);
    OneRow(c, claim.equations, [proof.A], e, [proof.Z]);
    assert ProperPoint(c, [proof.A][0]) <==> ProperPoint(c, proof.A);
  }

  // ---------- what is proved ----------

  /** The response k + e * w modulo q, as the source computes it. */
  function Response(q: nat, k: nat, e: nat, w: nat): (z: nat)
    requires q > 0
    ensures z == (k + e * w) % q
  {
    ResponseIs(q, k, e, w);
    AddQ(q, k, MulQ(q, e, w))
  }

  lemma HonestParts(c: Curve, keccak: bytes -> Digest, claim: Claim, state: bytes, A: seq<Affine>, z: seq<nat>,
                    w: seq<nat>, k: seq<nat>)
    requires c.q > 0 && |w| == |k| && AllIndexed(|k|, claim.equations)
    requires |claim.commitmentTags| == |claim.equations|
    requires Proof(A, z) == HonestProof(c, keccak, claim, state, w, k)
    ensures var e := ChallengeFor(c, keccak, claim, state, A);
            && (forall i :: 0 <= i < |w| ==> z[i] == Response(c.q, k[i], e, w[i]))
            && (forall i :: 0 <= i < |claim.equations| ==> A[i] == Combine(c, k, claim.equations[i].terms))
  {
  }

  lemma DleqProves(c: Curve, keccak: bytes -> Digest, state: bytes, proof: DLEQProof, pk: Affine, ct: Ciphertext,
                   amount: uint64, sk: nat, k: nat)
    requires c.q > 0 && AllIndexed(1, DleqEquations(c, pk, ct, amount))
    requires proof.View() == HonestProof(c, keccak, DleqClaim(c, pk, ct, amount), state, [sk], [k])
    ensures var e := ChallengeFor(c, keccak, DleqClaim(c, pk, ct, amount), state, [proof.R1, proof.R2]);
            && proof.R1 == c.Mul(k, c.G) && proof.R2 == c.Mul(k, ct.C1)
            && proof.S == Response(c.q, k, e, sk)
  {
    var claim := DleqClaim(c, pk, ct, amount);
    HonestParts(c, keccak, claim, state, [proof.R1, proof.R2], [proof.S], [sk], [k]);
    CombineOne(c, [k], Term(0, c.G));
    CombineOne(c, [k], Term(0, ct.C1));
    assert claim.equations[0].terms == [Term(0, c.G)] && claim.equations[1].terms == [Term(0, ct.C1)];
  }

  lemma EqualityProves(c: Curve, keccak: bytes -> Digest, state: bytes, proof: EqualityProof, pk1: Affine, pk2: Affine,
                       pk3: Affine, ct1: Ciphertext, ct2: Ciphertext, ct3: Ciphertext, w: seq<nat>, k: seq<nat>)
    requires c.q > 0 && |w| == |k| == 4 && AllIndexed(4, EqualityClaim(c, pk1, pk2, pk3, ct1, ct2, ct3).equations)
    requires proof.View() == HonestProof(c, keccak, EqualityClaim(c, pk1, pk2, pk3, ct1, ct2, ct3), state, w, k)
    ensures var e := ChallengeFor(c, keccak, EqualityClaim(c, pk1, pk2, pk3, ct1, ct2, ct3), state,
                                  [proof.R11, proof.R21, proof.R12, proof.R22, proof.R13, proof.R23]);
            && proof.R11 == c.Mul(k[1], c.G) && proof.R21 == c.Plus(c.Mul(k[0], c.G), c.Mul(k[1], pk1))
            && proof.R12 == c.Mul(k[2], c.G) && proof.R22 == c.Plus(c.Mul(k[0], c.G), c.Mul(k[2], pk2))
            && proof.R13 == c.Mul(k[3], c.G) && proof.R23 == c.Plus(c.Mul(k[0], c.G), c.Mul(k[3], pk3))
            && proof.Sm == Response(c.q, k[0], e, w[0]) && proof.Sr1 == Response(c.q, k[1], e, w[1])
            && proof.Sr2 == Response(c.q, k[2], e, w[2]) && proof.Sr3 == Response(c.q, k[3], e, w[3])
  {
    var claim := EqualityClaim(c, pk1, pk2, pk3, ct1, ct2, ct3);
    HonestParts(c, keccak, claim, state, [proof.R11, proof.R21, proof.R12, proof.R22, proof.R13, proof.R23],
                [proof.Sm, proof.Sr1, proof.Sr2, proof.Sr3], w, k);
    KeyRowValues(c, 0, pk1, ct1, k);
    KeyRowValues(c, 1, pk2, ct2, k);
    KeyRowValues(c, 2, pk3, ct3, k);
    var eqs := claim.equations;
    assert eqs[0] == RandomnessRow(c, 0, ct1) && eqs[1] == MessageRow(c, 0, pk1, ct1);
    assert eqs[2] == RandomnessRow(c, 1, ct2) && eqs[3] == MessageRow(c, 1, pk2, ct2);
    assert eqs[4] == RandomnessRow(c, 2, ct3) && eqs[5] == MessageRow(c, 2, pk3, ct3);
  }

  lemma Equality2Proves(c: Curve, keccak: bytes -> Digest, state: bytes, proof: Equality2Proof,
                        pk1: Affine, pk2: Affine, ct1: Ciphertext, ct2: Ciphertext, w: seq<nat>, k: seq<nat>)
    requires c.q > 0 && |w| == |k| == 3 && AllIndexed(3, Equality2Claim(c, pk1, pk2, ct1, ct2).equations)
    requires proof.View() == HonestProof(c, keccak, Equality2Claim(c, pk1, pk2, ct1, ct2), state, w, k)
    ensures var e := ChallengeFor(c, keccak, Equality2Claim(c, pk1, pk2, ct1, ct2), state,
                                  [proof.R11, proof.R21, proof.R12, proof.R22]);
            && proof.R11 == c.Mul(k[1], c.G) && proof.R21 == c.Plus(c.Mul(k[0], c.G), c.Mul(k[1], pk1))
            && proof.R12 == c.Mul(k[2], c.G) && proof.R22 == c.Plus(c.Mul(k[0], c.G), c.Mul(k[2], pk2))
            && proof.Sm == Response(c.q, k[0], e, w[0]) && proof.Sr1 == Response(c.q, k[1], e, w[1])
            && proof.Sr2 == Response(c.q, k[2], e, w[2])
  {
    var claim := Equality2Claim(c, pk1, pk2, ct1, ct2);
    HonestParts(c, keccak, claim, state, [proof.R11, proof.R21, proof.R12, proof.R22],
                [proof.Sm, proof.Sr1, proof.Sr2], w, k);
    KeyRowValues(c, 0, pk1, ct1, k);
    KeyRowValues(c, 1, pk2, ct2, k);
    var eqs := claim.equations;
    assert eqs[0] == RandomnessRow(c, 0, ct1) && eqs[1] == MessageRow(c, 0, pk1, ct1);
    assert eqs[2] == RandomnessRow(c, 1, ct2) && eqs[3] == MessageRow(c, 1, pk2, ct2);
  }

  lemma ApplyProves(c: Curve, keccak: bytes -> Digest, state: bytes, proof: ApplyPendingProof, pk: Affine,
                    pending: Ciphertext, newCt: Ciphertext, w: seq<nat>, k: seq<nat>)
    requires c.q > 0 && |w| == |k| == 3 && AllIndexed(3, ApplyEquations(c, pk, pending, newCt))
    requires proof.View() == HonestProof(c, keccak, ApplyClaim(c, pk, pending, newCt), state, w, k)
    ensures var e := ChallengeFor(c, keccak, ApplyClaim(c, pk, pending, newCt), state,
                                  [proof.R1, proof.R2, proof.R3, proof.R4]);
            && proof.R1 == c.Plus(c.Mul(k[0], c.G), c.Mul(k[1], pending.C1)) && proof.R2 == c.Mul(k[1], c.G)
            && proof.R3 == c.Mul(k[2], c.G) && proof.R4 == c.Plus(c.Mul(k[0], c.G), c.Mul(k[2], pk))
            && proof.Sm == Response(c.q, k[0], e, w[0]) && proof.Ssk == Response(c.q, k[1], e, w[1])
            && proof.Srn == Response(c.q, k[2], e, w[2])
  {
    var claim := ApplyClaim(c, pk, pending, newCt);
    HonestParts(c, keccak, claim, state, [proof.R1, proof.R2, proof.R3, proof.R4],
                [proof.Sm, proof.Ssk, proof.Srn], w, k);
    CombineTwo(c, k, Term(0, c.G), Term(1, pending.C1));
    CombineOne(c, k, Term(1, c.G));
    CombineOne(c, k, Term(2, c.G));
    CombineTwo(c, k, Term(0, c.G), Term(2, pk));
    var eqs := claim.equations;
    assert eqs[0].terms == [Term(0, c.G), Term(1, pending.C1)] && eqs[1].terms == [Term(1, c.G)];
    assert eqs[2].terms == [Term(2, c.G)] && eqs[3].terms == [Term(0, c.G), Term(2, pk)];
  }

  lemma CommitmentProves(c: Curve, keccak: bytes -> Digest, state: bytes, proof: CommitmentEqualityProof, pk: Affine,
                         H: Affine, ct: Ciphertext, P: Affine, w: seq<nat>, k: seq<nat>)
    requires c.q > 0 && |w| == |k| == 3 && AllIndexed(3, CommitmentEquations(c, pk, H, ct, P))
    requires proof.View() == HonestProof(c, keccak, CommitmentClaim(c, pk, H, ct, P), state, w, k)
    ensures var e := ChallengeFor(c, keccak, CommitmentClaim(c, pk, H, ct, P), state, [proof.A1, proof.A2, proof.A3]);
            && proof.A1 == c.Mul(k[1], c.G)
            && proof.A2 == c.Plus(c.Mul(k[0], c.G), c.Mul(k[1], pk))
            && proof.A3 == c.Plus(c.Mul(k[0], c.G), c.Mul(k[2], H))
            && proof.Zv == Response(c.q, k[0], e, w[0]) && proof.Zr == Response(c.q, k[1], e, w[1])
            && proof.Zs == Response(c.q, k[2], e, w[2])
  {
    var claim := CommitmentClaim(c, pk, H, ct, P);
    HonestParts(c, keccak, claim, state, [proof.A1, proof.A2, proof.A3],
                [proof.Zv, proof.Zr, proof.Zs], w, k);
    CombineOne(c, k, Term(1, c.G));
    CombineTwo(c, k, Term(0, c.G), Term(1, pk));
    CombineTwo(c, k, Term(0, c.G), Term(2, H));
    var eqs := claim.equations;
    assert eqs[0].terms == [Term(1, c.G)] && eqs[1].terms == [Term(0, c.G), Term(1, pk)];
    assert eqs[2].terms == [Term(0, c.G), Term(2, H)];
  }

  lemma PopProves(c: Curve, keccak: bytes -> Digest, state: bytes, proof: PopProof, pk: Affine, sk: nat, k: nat)
    requires c.q > 0 && AllIndexed(1, PopEquations(c, pk))
    requires proof.View() == HonestProof(c, keccak, PopClaim(c, pk), state, [sk], [k])
    ensures var e := ChallengeFor(c, keccak, PopClaim(c, pk), state, [proof.A]);
            proof.A == c.Mul(k, c.G) && proof.Z == Response(c.q, k, e, sk)
  {
    var claim := PopClaim(c, pk);
    HonestParts(c, keccak, claim, state, [proof.A], [proof.Z], [sk], [k]);
    CombineOne(c, [k], Term(0, c.G));
    assert claim.equations[0].terms == [Term(0, c.G)];
  }
}
