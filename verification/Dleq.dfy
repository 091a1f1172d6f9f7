/** Correct decryption: pk == sk * G and C2 - amount * G == sk * C1. */
module Dleq {
  import opened Scalars
  import opened Bytes
  import opened Curves
  import opened Transcripts
  import opened Sigma
  import opened FiatShamir
  import opened ProofTranscripts
  import opened Ciphertexts
  import opened DiscreteLogs

  datatype DLEQProof = DLEQProof(S: nat, R1: Affine, R2: Affine)
  {
    function View(): Proof { Proof([R1, R2], [S]) }
  }

  function DleqEquations(c: Curve, pk: Affine, ct: Ciphertext, amount: uint64): seq<Equation>
  {
    [Equation([Term(0, c.G)], pk),
     Equation([Term(0, ct.C1)], c.Minus(ct.C2, c.Mul(amount, c.G)))]
  }

  function DleqClaim(c: Curve, pk: Affine, ct: Ciphertext, amount: uint64): Claim
  {
    Claim(Ascii("dleq"),
          [Labelled(Ascii("pk"), pk), Labelled(Ascii("C1"), ct.C1), Labelled(Ascii("C2"), ct.C2)],
          [Item(Ascii("amount"), ToLittleEndian(amount, 8))],
          [Ascii("R1"), Ascii("R2")],
          Ascii("dleq_challenge"),
          DleqEquations(c, pk, ct, amount),
          true,
          ValidPublicKey(c, pk) && ValidCiphertext(c, ct),
          false)
  }

  method ProveDLEQ(c: Curve, keccak: bytes -> Digest, sk: nat, pk: Affine, ct: Ciphertext, amount: uint64,
                   transcript: Transcript?, k: nat) returns (proof: DLEQProof)
    requires c.q > 0 && Usable(transcript, keccak)
    modifies transcript
    ensures AllIndexed(1, DleqEquations(c, pk, ct, amount))
    ensures proof.View() == HonestProof(c, keccak, DleqClaim(c, pk, ct, amount), old(StartState(transcript)), [sk], [k])
    ensures EndsIn(transcript, StateAfter(keccak, DleqClaim(c, pk, ct, amount), old(StartState(transcript)),
                                          proof.View().commitments))
  {
    ghost var claim := DleqClaim(c, pk, ct, amount);
    var r1 := c.Mul(k, c.G);
    var r2 := c.Mul(k, ct.C1);
    CombineOne(c, [k], Term(0, c.G));
    CombineOne(c, [k], Term(0, ct.C1));

    var t := OpenTranscript(transcript, keccak);
    ghost var before := t.pending;
    var points := [Labelled(Ascii("pk"), pk), Labelled(Ascii("C1"), ct.C1), Labelled(Ascii("C2"), ct.C2)];
    var amountItem := [Item(Ascii("amount"), ToLittleEndian(amount, 8))];
    var commitments := [Labelled(Ascii("R1"), r1), Labelled(Ascii("R2"), r2)];
    AppendProof(t, Ascii("dleq"), points, amountItem, commitments, claim, [r1, r2]);
    var e := DrawChallenge(c, t, claim, [r1, r2], before, Ascii("dleq_challenge"));

    var eSk := MulQ(c.q, e, sk);
    var s := AddQ(c.q, k, eSk);
    proof := DLEQProof(s, r1, r2);
    assert Commit(c, claim.equations, [k]) == [r1, r2];
  }

  /** The two verification equations for a given challenge. */
  method CheckDLEQ(c: Curve, proof: DLEQProof, pk: Affine, ct: Ciphertext, amount: uint64, e: nat) returns (ok: bool)
    ensures ok == Check(c, DleqEquations(c, pk, ct, amount), [proof.R1, proof.R2], e, [proof.S])
  {
    RowOne(c, Term(0, c.G), pk, proof.R1, e, [proof.S]);
    RowOne(c, Term(0, ct.C1), c.Minus(ct.C2, c.Mul(amount, c.G)), proof.R2, e, [proof.S]);

    // S*G == R1 + e*pk
    var lhs1 := c.Mul(proof.S, c.G);
    var ePk := c.Mul(e, pk);
    var rhs1Jac := FromAffine(proof.R1);
    rhs1Jac := c.JacAdd(rhs1Jac, FromAffine(ePk));
    var rhs1 := c.Normalize(rhs1Jac);
    if lhs1 != rhs1 {
      assert !RowHolds(c, DleqEquations(c, pk, ct, amount)[0], [proof.R1, proof.R2][0], e, [proof.S]);
      return false;
    }

    // S*C1 == R2 + e*(C2 - amount*G)
    var lhs2 := c.Mul(proof.S, ct.C1);
    var negAmountG := c.Neg(c.Mul(amount, c.G));
    var diffJac := FromAffine(ct.C2);
    diffJac := c.JacAdd(diffJac, FromAffine(negAmountG));
    var diff := c.Normalize(diffJac);
    var eDiff := c.Mul(e, diff);
    var rhs2Jac := FromAffine(proof.R2);
    rhs2Jac := c.JacAdd(rhs2Jac, FromAffine(eDiff));
    var rhs2 := c.Normalize(rhs2Jac);
    ok := lhs2 == rhs2;
    assert RowHolds(c, DleqEquations(c, pk, ct, amount)[1], [proof.R1, proof.R2][1], e, [proof.S]) <==> ok;
  }

  method VerifyDLEQ(c: Curve, keccak: bytes -> Digest, proof: DLEQProof, pk: Affine, ct: Ciphertext, amount: uint64,
                    transcript: Transcript?) returns (ok: bool)
    requires c.q > 0 && Usable(transcript, keccak)
    modifies transcript
    ensures ok == Accepts(c, keccak, DleqClaim(c, pk, ct, amount), old(StartState(transcript)), proof.View())
    ensures EndsIn(transcript, VerifierState(c, keccak, DleqClaim(c, pk, ct, amount), old(StartState(transcript)),
                                             proof.View().commitments))
  {
    ghost var claim := DleqClaim(c, pk, ct, amount);
    if !ValidPublicKey(c, pk) {
      return false;
    }
    if !ValidCiphertext(c, ct) {
      return false;
    }

    var t := OpenTranscript(transcript, keccak);
    ghost var before := t.pending;
    var points := [Labelled(Ascii("pk"), pk), Labelled(Ascii("C1"), ct.C1), Labelled(Ascii("C2"), ct.C2)];
    var amountItem := [Item(Ascii("amount"), ToLittleEndian(amount, 8))];
    var commitments := [Labelled(Ascii("R1"), proof.R1), Labelled(Ascii("R2"), proof.R2)];
    AppendProof(t, Ascii("dleq"), points, amountItem, commitments, claim, [proof.R1, proof.R2]);
    var e := DrawChallenge(c, t, claim, [proof.R1, proof.R2], before, Ascii("dleq_challenge"));

    ok := CheckDLEQ(c, proof, pk, ct, amount, e);
  }

  // ---------- what an accepted proof means ----------

  /** The statement: sk is the secret key of pk and takes ct to amount. */
  ghost predicate DecryptsTo(c: Curve, pk: Affine, ct: Ciphertext, sk: nat, amount: nat)
  {
    pk == c.Mul(sk, c.G) && Unmask(c, ct, sk) == c.Mul(amount, c.G)
  }

  lemma DleqFits(c: Curve, pk: Affine, ct: Ciphertext, amount: uint64)
    requires c.Valid() && c.OnCurve(pk) && c.OnCurve(ct.C1) && c.OnCurve(ct.C2)
    ensures ClaimFits(c, 1, DleqClaim(c, pk, ct, amount))
  {
    MulClosed(c, amount, c.G);
    MinusIff(c, ct.C2, c.Mul(amount, c.G), INFINITY);
  }

  /** The linear statement proved is exactly correct decryption. */
  lemma DleqMeaning(c: Curve, pk: Affine, ct: Ciphertext, amount: uint64, sk: nat)
    requires c.Valid() && c.OnCurve(ct.C1) && c.OnCurve(ct.C2)
    ensures Satisfies(c, DleqEquations(c, pk, ct, amount), [sk]) <==> DecryptsTo(c, pk, ct, sk, amount)
  {
    var eqs := DleqEquations(c, pk, ct, amount);
    CombineOne(c, [sk], Term(0, c.G));
    CombineOne(c, [sk], Term(0, ct.C1));
    var aG, kC := c.Mul(amount, c.G), c.Mul(sk, ct.C1);
    MulClosed(c, amount, c.G);
    MulClosed(c, sk, ct.C1);
    MinusIff(c, ct.C2, aG, kC);
    MinusIff(c, ct.C2, kC, aG);
    PlusCommutes(c, aG, kC);
    if DecryptsTo(c, pk, ct, sk, amount) {
      forall i | 0 <= i < |eqs| ensures Indexed(1, eqs[i].terms) && Combine(c, [sk], eqs[i].terms) == eqs[i].target {
      }
    }
    if Satisfies(c, eqs, [sk]) {
      assert Combine(c, [sk], eqs[0].terms) == eqs[0].target && Combine(c, [sk], eqs[1].terms) == eqs[1].target;
    }
  }

  /** An honest proof of correct decryption is accepted exactly when key and ciphertext are not degenerate. */
  lemma HonestDleqAccepted(c: Curve, keccak: bytes -> Digest, state: bytes, pk: Affine, ct: Ciphertext, amount: uint64,
                           sk: nat, k: nat)
    requires c.Valid() && c.OnCurve(ct.C1) && c.OnCurve(ct.C2) && DecryptsTo(c, pk, ct, sk, amount)
    ensures AllIndexed(1, DleqEquations(c, pk, ct, amount))
    ensures Accepts(c, keccak, DleqClaim(c, pk, ct, amount), state,
                    HonestProof(c, keccak, DleqClaim(c, pk, ct, amount), state, [sk], [k]))
            <==> pk != INFINITY && ct.C1 != INFINITY
  {
    MulClosed(c, sk, c.G);
    DleqFits(c, pk, ct, amount);
    DleqMeaning(c, pk, ct, amount, sk);
    HonestAccepted(c, keccak, DleqClaim(c, pk, ct, amount), state, [sk], [k]);
  }

  /** At most one uint64 amount makes the statement true, and only one canonical secret key does. */
  lemma DleqAmountUnique(c: Curve, pk: Affine, ct: Ciphertext, sk: nat, amount: uint64, sk': nat, amount': uint64)
    requires c.Valid() && TWO64 <= c.q && c.OnCurve(ct.C1) && c.OnCurve(ct.C2) && sk < c.q && sk' < c.q
    requires DecryptsTo(c, pk, ct, sk, amount) && DecryptsTo(c, pk, ct, sk', amount')
    ensures sk == sk' && amount == amount'
  {
    MulInjective(c, sk, sk', c.G);
    MulInjective(c, amount, amount', c.G);
  }

  /**
   Two accepting transcripts with the same commitments and different challenges yield the secret
   key, and decrypting with it through any solver that covers the amount returns exactly that amount.
   */
  lemma DleqSoundness(c: Curve, pk: Affine, ct: Ciphertext, amount: uint64, range: nat,
                      R1: Affine, R2: Affine, e1: nat, S1: nat, e2: nat, S2: nat) returns (sk: nat)
    requires c.Valid() && TWO64 <= c.q && c.OnCurve(pk) && ValidCiphertext(c, ct)
    requires c.OnCurve(R1) && c.OnCurve(R2)
    requires e1 < c.q && e2 < c.q && e1 != e2 && S1 < c.q && S2 < c.q
    requires Check(c, DleqEquations(c, pk, ct, amount), [R1, R2], e1, [S1])
    requires Check(c, DleqEquations(c, pk, ct, amount), [R1, R2], e2, [S2])
    ensures sk < c.q && DecryptsTo(c, pk, ct, sk, amount)
    ensures range <= c.q ==> Solve(c, range, Unmask(c, ct, sk)) == if amount < range then Some(amount) else None
  {
    var eqs := DleqEquations(c, pk, ct, amount);
    DleqFits(c, pk, ct, amount);
    SpecialSoundness(c, eqs, [R1, R2], e1, [S1], e2, [S2]);
    var w := Extract(c.q, e1, [S1], e2, [S2]);
    sk := w[0];
    assert w == [sk];
    DleqMeaning(c, pk, ct, amount, sk);
    if range <= c.q {
      SolveMultiple(c, range, amount);
      DivModIs(amount, c.q, 0, amount);
      DivModIs(amount, TWO64, 0, amount);
    }
  }
}
