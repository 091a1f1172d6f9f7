/**
 Accepted proofs cannot be varied: given the commitments and the challenge, at most one vector of
 canonical responses verifies. With the wire formats, which have one encoding for each proof, that
 leaves one accepted byte string for given commitments.
 */
module ResponseUniqueness {
  import opened Bytes
  import opened Curves
  import opened Transcripts
  import opened Sigma
  import opened FiatShamir
  import opened ProofTranscripts
  import opened Ciphertexts
  import opened Dleq
  import opened Equality
  import opened ApplyPending
  import opened CommitmentEquality
  import opened Possession
  import opened Sessions

  /** The two rows of key i combine alike. */
  lemma KeyRowsAlike(c: Curve, pks: seq<Affine>, cts: seq<Ciphertext>, A: seq<Affine>, e: nat,
                     z: seq<nat>, z': seq<nat>, i: nat)
    requires |pks| == |cts| && |z| == |z'| == |pks| + 1 && i < |pks|
    requires Check(c, KeyEquations(c, pks, cts), A, e, z) && Check(c, KeyEquations(c, pks, cts), A, e, z')
    ensures c.Mul(z[i + 1], c.G) == c.Mul(z'[i + 1], c.G)
    ensures c.Plus(c.Mul(z[0], c.G), c.Mul(z[i + 1], pks[i])) == c.Plus(c.Mul(z'[0], c.G), c.Mul(z'[i + 1], pks[i]))
  {
    var eqs := KeyEquations(c, pks, cts);
    AcceptedCombineAlike(c, eqs, A, e, z, z');
    KeyRowValues(c, i, pks[i], cts[i], z);
    KeyRowValues(c, i, pks[i], cts[i], z');
    assert eqs[2 * i] == RandomnessRow(c, i, cts[i]) && eqs[2 * i + 1] == MessageRow(c, i, pks[i], cts[i]);
  }

  lemma KeyResponsesUnique(c: Curve, pks: seq<Affine>, cts: seq<Ciphertext>, A: seq<Affine>, e: nat,
                           z: seq<nat>, z': seq<nat>)
    requires c.Valid() && |pks| == |cts| > 0 && AllValid(c, pks, cts)
    requires |z| == |z'| == |pks| + 1 && IsScalars(c.q, z) && IsScalars(c.q, z')
    requires Check(c, KeyEquations(c, pks, cts), A, e, z) && Check(c, KeyEquations(c, pks, cts), A, e, z')
    ensures z == z'
  {
    forall j | 0 < j < |z| ensures z[j] == z'[j] {
      KeyRowsAlike(c, pks, cts, A, e, z, z', j - 1);
      MulInjective(c, z[j], z'[j], c.G);
    }
    KeyRowsAlike(c, pks, cts, A, e, z, z', 0);
    assert ValidPublicKey(c, pks[0]) && z[1] == z'[1];
    FirstScalarUnique(c, z[0], z'[0], c.G, z[1], pks[0]);
  }

  lemma OneResponseUnique(c: Curve, eqs: seq<Equation>, A: seq<Affine>, e: nat, z: seq<nat>, z': seq<nat>)
    requires c.Valid() && |eqs| > 0 && eqs[0].terms == [Term(0, c.G)]
    requires |z| == |z'| == 1 && IsScalars(c.q, z) && IsScalars(c.q, z')
    requires Check(c, eqs, A, e, z) && Check(c, eqs, A, e, z')
    ensures z == z'
  {
    AcceptedCombineAlike(c, eqs, A, e, z, z');
    CombineOne(c, z, Term(0, c.G));
    CombineOne(c, z', Term(0, c.G));
    MulInjective(c, z[0], z'[0], c.G);
  }

  lemma ApplyRowValues(c: Curve, pk: Affine, pending: Ciphertext, newCt: Ciphertext, x: seq<nat>)
    requires |x| == 3
    ensures var eqs := ApplyEquations(c, pk, pending, newCt);
            && AllIndexed(3, eqs)
            && Combine(c, x, eqs[0].terms) == c.Plus(c.Mul(x[0], c.G), c.Mul(x[1], pending.C1))
            && Combine(c, x, eqs[1].terms) == c.Mul(x[1], c.G)
            && Combine(c, x, eqs[2].terms) == c.Mul(x[2], c.G)
  {
    CombineTwo(c, x, Term(0, c.G), Term(1, pending.C1));
    CombineOne(c, x, Term(1, c.G));
    CombineOne(c, x, Term(2, c.G));
    CombineTwo(c, x, Term(0, c.G), Term(2, pk));
  }

  lemma ApplyRowsAlike(c: Curve, pk: Affine, pending: Ciphertext, newCt: Ciphertext, A: seq<Affine>, e: nat,
                       z: seq<nat>, z': seq<nat>)
    requires |z| == |z'| == 3
    requires Check(c, ApplyEquations(c, pk, pending, newCt), A, e, z)
    requires Check(c, ApplyEquations(c, pk, pending, newCt), A, e, z')
    ensures c.Mul(z[1], c.G) == c.Mul(z'[1], c.G) && c.Mul(z[2], c.G) == c.Mul(z'[2], c.G)
    ensures c.Plus(c.Mul(z[0], c.G), c.Mul(z[1], pending.C1)) == c.Plus(c.Mul(z'[0], c.G), c.Mul(z'[1], pending.C1))
  {
    AcceptedCombineAlike(c, ApplyEquations(c, pk, pending, newCt), A, e, z, z');
    ApplyRowValues(c, pk, pending, newCt, z);
    ApplyRowValues(c, pk, pending, newCt, z');
  }

  lemma ApplyResponsesUnique(c: Curve, pk: Affine, pending: Ciphertext, newCt: Ciphertext, A: seq<Affine>, e: nat,
                             z: seq<nat>, z': seq<nat>)
    requires c.Valid() && ValidCiphertext(c, pending)
    requires |z| == |z'| == 3 && IsScalars(c.q, z) && IsScalars(c.q, z')
    requires Check(c, ApplyEquations(c, pk, pending, newCt), A, e, z)
    requires Check(c, ApplyEquations(c, pk, pending, newCt), A, e, z')
    ensures z == z'
  {
    ApplyRowsAlike(c, pk, pending, newCt, A, e, z, z');
    MulInjective(c, z[1], z'[1], c.G);
    MulInjective(c, z[2], z'[2], c.G);
    FirstScalarUnique(c, z[0], z'[0], c.G, z[1], pending.C1);
  }

  lemma CommitmentRowValues(c: Curve, pk: Affine, H: Affine, ct: Ciphertext, P: Affine, x: seq<nat>)
    requires |x| == 3
    ensures var eqs := CommitmentEquations(c, pk, H, ct, P);
            && AllIndexed(3, eqs)
            && Combine(c, x, eqs[0].terms) == c.Mul(x[1], c.G)
            && Combine(c, x, eqs[1].terms) == c.Plus(c.Mul(x[0], c.G), c.Mul(x[1], pk))
            && Combine(c, x, eqs[2].terms) == c.Plus(c.Mul(x[0], c.G), c.Mul(x[2], H))
  {
    CombineOne(c, x, Term(1, c.G));
    CombineTwo(c, x, Term(0, c.G), Term(1, pk));
    CombineTwo(c, x, Term(0, c.G), Term(2, H));
  }

  lemma CommitmentRowsAlike(c: Curve, pk: Affine, H: Affine, ct: Ciphertext, P: Affine, A: seq<Affine>, e: nat,
                            z: seq<nat>, z': seq<nat>)
    requires |z| == |z'| == 3
    requires Check(c, CommitmentEquations(c, pk, H, ct, P), A, e, z)
    requires Check(c, CommitmentEquations(c, pk, H, ct, P), A, e, z')
    ensures c.Mul(z[1], c.G) == c.Mul(z'[1], c.G)
    ensures c.Plus(c.Mul(z[0], c.G), c.Mul(z[1], pk)) == c.Plus(c.Mul(z'[0], c.G), c.Mul(z'[1], pk))
    ensures c.Plus(c.Mul(z[0], c.G), c.Mul(z[2], H)) == c.Plus(c.Mul(z'[0], c.G), c.Mul(z'[2], H))
  {
    AcceptedCombineAlike(c, CommitmentEquations(c, pk, H, ct, P), A, e, z, z');
    CommitmentRowValues(c, pk, H, ct, P, z);
    CommitmentRowValues(c, pk, H, ct, P, z');
  }

  lemma CommitmentResponsesUnique(c: Curve, pk: Affine, H: Affine, ct: Ciphertext, P: Affine, A: seq<Affine>, e: nat,
                                  z: seq<nat>, z': seq<nat>)
    requires c.Valid() && ValidPublicKey(c, pk) && ValidPublicKey(c, H)
    requires |z| == |z'| == 3 && IsScalars(c.q, z) && IsScalars(c.q, z')
    requires Check(c, CommitmentEquations(c, pk, H, ct, P), A, e, z)
    requires Check(c, CommitmentEquations(c, pk, H, ct, P), A, e, z')
    ensures z == z'
  {
    CommitmentRowsAlike(c, pk, H, ct, P, A, e, z, z');
    MulInjective(c, z[1], z'[1], c.G);
    FirstScalarUnique(c, z[0], z'[0], c.G, z[1], pk);
    MulClosed(c, z[0], c.G);
    SecondScalarUnique(c, c.Mul(z[0], c.G), z[2], z'[2], H);
  }

  /** Commitments and challenge leave at most one canonical response vector that verifies, for all six. */
  lemma ResponsesUnique(c: Curve, st: Statement, A: seq<Affine>, e: nat, z: seq<nat>, z': seq<nat>)
    requires c.Valid() && ClaimOf(c, st).admissible
    requires |z| == |z'| == Arity(st) && IsScalars(c.q, z) && IsScalars(c.q, z')
    requires Check(c, ClaimOf(c, st).equations, A, e, z) && Check(c, ClaimOf(c, st).equations, A, e, z')
    ensures z == z'
  {
    match st
    case DleqStatement(pk, ct, amount) => OneResponseUnique(c, DleqEquations(c, pk, ct, amount), A, e, z, z');
    case EqualityStatement(pk1, pk2, pk3, ct1, ct2, ct3) =>
      KeyResponsesUnique(c, [pk1, pk2, pk3], [ct1, ct2, ct3], A, e, z, z');
    case Equality2Statement(pk1, pk2, ct1, ct2) => KeyResponsesUnique(c, [pk1, pk2], [ct1, ct2], A, e, z, z');
    case ApplyStatement(pk, pending, newCt) => ApplyResponsesUnique(c, pk, pending, newCt, A, e, z, z');
    case CommitmentStatement(pk, H, ct, P) => CommitmentResponsesUnique(c, pk, H, ct, P, A, e, z, z');
    case PopStatement(pk) => OneResponseUnique(c, PopEquations(c, pk), A, e, z, z');
  }

  /** Two accepted proofs of one statement, from one transcript and with the same commitments, are the same proof. */
  lemma AcceptedProofUnique(c: Curve, keccak: bytes -> Digest, st: Statement, state: bytes, pf: Proof, pf': Proof)
    requires c.Valid() && |ClaimOf(c, st).commitmentTags| == |pf.commitments| && pf.commitments == pf'.commitments
    requires |pf.responses| == |pf'.responses| == Arity(st)
    requires IsScalars(c.q, pf.responses) && IsScalars(c.q, pf'.responses)
    requires Accepts(c, keccak, ClaimOf(c, st), state, pf) && Accepts(c, keccak, ClaimOf(c, st), state, pf')
    ensures pf == pf'
  {
    ResponsesUnique(c, st, pf.commitments, ChallengeFor(c, keccak, ClaimOf(c, st), state, pf.commitments),
                    pf.responses, pf'.responses);
  }
}
