/** A ciphertext (r*G, v*G + r*pk) and a Pedersen commitment v*G + s*H hide the same value. */
module CommitmentEquality {
  import opened Scalars
  import opened Bytes
  import opened Curves
  import opened Transcripts
  import opened Sigma
  import opened FiatShamir
  import opened ProofTranscripts
  import opened Ciphertexts
  import opened ElGamal

  datatype CommitmentEqualityProof = CommitmentEqualityProof(
    Zv: nat, Zr: nat, Zs: nat,
    A1: Affine, A2: Affine, A3: Affine)
  {
    function View(): Proof { Proof([A1, A2, A3], [Zv, Zr, Zs]) }
  }

  /** The sum of two affine points, in Jacobian coordinates. */
  method AddAffine(c: Curve, a: Affine, b: Affine) returns (sum: Affine)
    ensures sum == c.Plus(a, b)
  {
    var aJac := FromAffine(a);
    aJac := c.JacAdd(aJac, FromAffine(b));
    sum := c.Normalize(aJac);
  }

  /** The unknowns are v, r and s. */
  function CommitmentEquations(c: Curve, pk: Affine, H: Affine, ct: Ciphertext, P: Affine): seq<Equation>
  {
    [Equation([Term(1, c.G)], ct.C1),
     Equation([Term(0, c.G), Term(1, pk)], ct.C2),
     Equation([Term(0, c.G), Term(2, H)], P)]
  }

  function CommitmentPoints(pk: Affine, H: Affine, ct: Ciphertext, P: Affine): seq<Labelled>
  {
    [Labelled(Ascii("pk"), pk), Labelled(Ascii("H"), H),
     Labelled(Ascii("C1"), ct.C1), Labelled(Ascii("C2"), ct.C2), Labelled(Ascii("P"), P)]
  }

  function CommitmentClaim(c: Curve, pk: Affine, H: Affine, ct: Ciphertext, P: Affine): Claim
  {
    Claim(Ascii("commitment-equality"), CommitmentPoints(pk, H, ct, P), [],
          [Ascii("A1"), Ascii("A2"), Ascii("A3")],
          Ascii("commitment_equality_challenge"),
          CommitmentEquations(c, pk, H, ct, P),
          ValidPublicKey(c, pk) && ValidPublicKey(c, H),
          ValidPublicKey(c, pk) && ValidPublicKey(c, H) && ValidCiphertext(c, ct) && ProperPoint(c, P), true)
  }

  method AppendCommitmentEquality(c: Curve, t: Transcript, pk: Affine, H: Affine, ct: Ciphertext, P: Affine,
                                  A1: Affine, A2: Affine, A3: Affine)
    requires t.Valid()
    modifies t`state, t`pending
    ensures t.Valid() && t.pending == old(t.pending) + Items(CommitmentClaim(c, pk, H, ct, P), [A1, A2, A3])
  {
    var commitments := [Labelled(Ascii("A1"), A1), Labelled(Ascii("A2"), A2), Labelled(Ascii("A3"), A3)];
    AppendProof(t, Ascii("commitment-equality"), CommitmentPoints(pk, H, ct, P), [], commitments,
                CommitmentClaim(c, pk, H, ct, P), [A1, A2, A3]);
  }

  lemma CommitmentIndexed(c: Curve, pk: Affine, H: Affine, ct: Ciphertext, P: Affine)
    ensures AllIndexed(3, CommitmentEquations(c, pk, H, ct, P))
  {
  }

  /** A1 = kr*G, A2 = kv*G + kr*pk, A3 = kv*G + ks*H. */
  method CommitCommitmentEquality(c: Curve, pk: Affine, H: Affine, ghost ct: Ciphertext, ghost P: Affine,
                                  kv: nat, kr: nat, ks: nat) returns (a1: Affine, a2: Affine, a3: Affine)
    ensures AllIndexed(3, CommitmentEquations(c, pk, H, ct, P))
    ensures Commit(c, CommitmentEquations(c, pk, H, ct, P), [kv, kr, ks]) == [a1, a2, a3]
  {
    ghost var k := [kv, kr, ks];
    CombineOne(c, k, Term(1, c.G));
    CombineTwo(c, k, Term(0, c.G), Term(1, pk));
    CombineTwo(c, k, Term(0, c.G), Term(2, H));

    a1 := c.Mul(kr, c.G);
    var kvG := c.Mul(kv, c.G);
    var krPk := c.Mul(kr, pk);
    a2 := AddAffine(c, kvG, krPk);
    var ksH := c.Mul(ks, H);
    a3 := AddAffine(c, kvG, ksH);
  }

  /** Fails, leaving the transcript alone, when pk or H is not a valid base. */
  method ProveCommitmentEquality(c: Curve, keccak: bytes -> Digest, v: nat, r: nat, s: nat, pk: Affine, H: Affine,
                                 ct: Ciphertext, P: Affine, transcript: Transcript?, kv: nat, kr: nat, ks: nat)
    returns (proof: Option<CommitmentEqualityProof>)
    requires c.q > 0 && Usable(transcript, keccak)
    modifies transcript
    ensures proof.None? <==> !c.OnCurve(pk) || pk == INFINITY || !c.OnCurve(H) || H == INFINITY
    ensures AllIndexed(3, CommitmentEquations(c, pk, H, ct, P))
    ensures var claim, start := CommitmentClaim(c, pk, H, ct, P), old(StartState(transcript));
            && (proof.Some? ==> proof.value.View() == HonestProof(c, keccak, claim, start, [v, r, s], [kv, kr, ks]))
            && EndsIn(transcript, if proof.None? then start
                                  else StateAfter(keccak, claim, start, proof.value.View().commitments))
  {
    ghost var claim, k := CommitmentClaim(c, pk, H, ct, P), [kv, kr, ks];
    CommitmentIndexed(c, pk, H, ct, P);
    if !ValidPublicKey(c, pk) || !ValidPublicKey(c, H) {
      return None;
    }

    var a1, a2, a3 := CommitCommitmentEquality(c, pk, H, ct, P, kv, kr, ks);

    var t := OpenTranscript(transcript, keccak);
    ghost var before := t.pending;
    AppendCommitmentEquality(c, t, pk, H, ct, P, a1, a2, a3);
    var e := DrawChallenge(c, t, claim, [a1, a2, a3], before, Ascii("commitment_equality_challenge"));

    var tmp := MulQ(c.q, e, v);
    var zv := AddQ(c.q, kv, tmp);
    tmp := MulQ(c.q, e, r);
    var zr := AddQ(c.q, kr, tmp);
    tmp := MulQ(c.q, e, s);
    var zs := AddQ(c.q, ks, tmp);
    assert Respond(c.q, k, e, [v, r, s]) == [zv, zr, zs];
    proof := Some(CommitmentEqualityProof(zv, zr, zs, a1, a2, a3));
  }

  method CheckCommitmentEquality(c: Curve, proof: CommitmentEqualityProof, pk: Affine, H: Affine, ct: Ciphertext,
                                 P: Affine, e: nat)
    returns (ok: bool)
    ensures ok == Check(c, CommitmentEquations(c, pk, H, ct, P), proof.View().commitments, e, proof.View().responses)
  {
    ghost var eqs, A, z := CommitmentEquations(c, pk, H, ct, P), proof.View().commitments, proof.View().responses;
    RowOne(c, Term(1, c.G), ct.C1, proof.A1, e, z);
    RowTwo(c, Term(0, c.G), Term(1, pk), ct.C2, proof.A2, e, z);
    RowTwo(c, Term(0, c.G), Term(2, H), P, proof.A3, e, z);

    // Zr*G == A1 + e*C1
    var lhs1 := c.Mul(proof.Zr, c.G);
    var rhs1 := AddAffine(c, proof.A1, c.Mul(e, ct.C1));
    if lhs1 != rhs1 {
      assert !RowHolds(c, eqs[0], A[0], e, z);
      return false;
    }
    // Zv*G + Zr*pk == A2 + e*C2
    var zvG := c.Mul(proof.Zv, c.G);
    var lhs2 := AddAffine(c, zvG, c.Mul(proof.Zr, pk));
    var rhs2 := AddAffine(c, proof.A2, c.Mul(e, ct.C2));
    if lhs2 != rhs2 {
      assert !RowHolds(c, eqs[1], A[1], e, z);
      return false;
    }
    // Zv*G + Zs*H == A3 + e*P
    var lhs3 := AddAffine(c, zvG, c.Mul(proof.Zs, H));
    var rhs3 := AddAffine(c, proof.A3, c.Mul(e, P));
    ok := lhs3 == rhs3;
    assert RowHolds(c, eqs[2], A[2], e, z) <==> ok;
  }

  method VerifyCommitmentEquality(c: Curve, keccak: bytes -> Digest, proof: CommitmentEqualityProof, pk: Affine,
                                  H: Affine, ct: Ciphertext, P: Affine, transcript: Transcript?) returns (ok: bool)
    requires c.q > 0 && Usable(transcript, keccak)
    modifies transcript
    ensures var claim := CommitmentClaim(c, pk, H, ct, P);
            && ok == Accepts(c, keccak, claim, old(StartState(transcript)), proof.View())
            && EndsIn(transcript, VerifierState(c, keccak, claim, old(StartState(transcript)),
                                                proof.View().commitments))
  {
    ghost var claim := CommitmentClaim(c, pk, H, ct, P);
    if !ValidPublicKey(c, pk) || !ValidPublicKey(c, H) || !ValidCiphertext(c, ct) || !c.OnCurve(P) || P == INFINITY {
      return false;
    }
    var nonces := [proof.A1, proof.A2, proof.A3];
    var i := 0;
    while i < 3
      invariant i <= 3 && forall j :: 0 <= j < i ==> ProperPoint(c, nonces[j])
    {
      if !c.OnCurve(nonces[i]) || nonces[i] == INFINITY {
        assert !ProperPoint(c, proof.View().commitments[i]);
        return false;
      }
      i := i + 1;
    }

    var t := OpenTranscript(transcript, keccak);
    ghost var before := t.pending;
    AppendCommitmentEquality(c, t, pk, H, ct, P, proof.A1, proof.A2, proof.A3);
    var e := DrawChallenge(c, t, claim, proof.View().commitments, before, Ascii("commitment_equality_challenge"));
    ok := CheckCommitmentEquality(c, proof, pk, H, ct, P, e);
  }

  // ---------- what an accepted proof means ----------

  /** P opens to value v with blinding s. */
  ghost predicate Opens(c: Curve, H: Affine, P: Affine, v: nat, s: nat)
  {
    P == c.Plus(c.Mul(v, c.G), c.Mul(s, H))
  }

  lemma CommitmentMeaning(c: Curve, pk: Affine, H: Affine, ct: Ciphertext, P: Affine, v: nat, r: nat, s: nat)
    ensures Satisfies(c, CommitmentEquations(c, pk, H, ct, P), [v, r, s])
            <==> Encrypts(c, ct, pk, v, r) && Opens(c, H, P, v, s)
  {
    var eqs, x := CommitmentEquations(c, pk, H, ct, P), [v, r, s];
    CombineOne(c, x, Term(1, c.G));
    CombineTwo(c, x, Term(0, c.G), Term(1, pk));
    CombineTwo(c, x, Term(0, c.G), Term(2, H));
    if Satisfies(c, eqs, x) {
      assert Combine(c, x, eqs[0].terms) == eqs[0].target;
      assert Combine(c, x, eqs[1].terms) == eqs[1].target;
      assert Combine(c, x, eqs[2].terms) == eqs[2].target;
    }
  }

  /** Two openings of one commitment to different values reveal the discrete logarithm of H. */
  lemma TwoOpenings(c: Curve, H: Affine, P: Affine, v: nat, s: nat, v': nat, s': nat) returns (x: nat)
    requires c.Valid() && c.OnCurve(H) && v < c.q && s < c.q && v' < c.q && s' < c.q
    requires Opens(c, H, P, v, s) && Opens(c, H, P, v', s') && v != v'
    ensures s != s' && x == MulQ(c.q, Inverse(c.q, SubQ(c.q, s, s')), SubQ(c.q, v', v))
    ensures c.Mul(x, c.G) == H
  {
    // (s - s') * H == (v' - v) * G
    var ds, dv := SubQ(c.q, s, s'), SubQ(c.q, v', v);
    var vG, sH := c.Mul(v, c.G), c.Mul(s', H);
    MulAddQ(c, s', ds, H);
    MulAddQ(c, v, dv, c.G);
    MulClosed(c, v, c.G);
    MulClosed(c, dv, c.G);
    MulClosed(c, s', H);
    MulClosed(c, ds, H);
    PlusClosed(c, vG, sH);
    PlusAssociates(c, vG, sH, c.Mul(ds, H));
    PlusAssociates(c, vG, c.Mul(dv, c.G), sH);
    PlusCommutes(c, c.Mul(dv, c.G), sH);
    PlusAssociates(c, vG, sH, c.Mul(dv, c.G));
    PlusCancels(c, c.Plus(vG, sH), c.Mul(ds, H), c.Mul(dv, c.G));
    if ds == 0 {
      MulInjective(c, dv, 0, c.G);
      assert false;
    }
    x := MulQ(c.q, Inverse(c.q, ds), dv);
    MulMulQ(c, Inverse(c.q, ds), dv, c.G);
    MulInverse(c, ds, H);
  }

  /** By contrast the owner of a nonzero secret key opens C2 alone, taken as a commitment to base pk, to any value. */
  lemma CiphertextIsNoCommitment(c: Curve, pk: Affine, sk: nat, ct: Ciphertext, v: nat, r: nat, v': nat)
    returns (r': nat)
    requires c.Valid() && 0 < sk < c.q && pk == c.Mul(sk, c.G) && v < c.q && r < c.q && v' < c.q
    requires Encrypts(c, ct, pk, v, r)
    ensures r' < c.q && Opens(c, pk, ct.C2, v', r')
    ensures r' == AddQ(c.q, r, MulQ(c.q, Inverse(c.q, sk), SubQ(c.q, v, v')))
  {
    var d := SubQ(c.q, v, v');
    var u := MulQ(c.q, Inverse(c.q, sk), d);
    r' := AddQ(c.q, r, u);
    MulClosed(c, sk, c.G);
    MulAddQ(c, r, u, pk);
    MulAddQ(c, v', d, c.G);
    // u * pk == d * G
    MulMulQ(c, Inverse(c.q, sk), d, pk);
    MulCommutes(c, d, sk, c.G);
    MulClosed(c, d, c.G);
    MulInverse(c, sk, c.Mul(d, c.G));
    MulClosed(c, v', c.G);
    MulClosed(c, r, pk);
    PlusAssociates(c, c.Mul(v', c.G), c.Mul(d, c.G), c.Mul(r, pk));
    PlusCommutes(c, c.Mul(d, c.G), c.Mul(r, pk));
  }

  lemma ExtractOpening(c: Curve, pk: Affine, H: Affine, ct: Ciphertext, P: Affine, A: seq<Affine>,
                       e1: nat, z1: seq<nat>, e2: nat, z2: seq<nat>) returns (v: nat, r: nat, s: nat)
    requires c.Valid() && c.OnCurve(pk) && c.OnCurve(H) && ValidCiphertext(c, ct) && c.OnCurve(P) && AllOnCurve(c, A)
    requires e1 < c.q && e2 < c.q && e1 != e2
    requires |z1| == |z2| == 3 && IsScalars(c.q, z1) && IsScalars(c.q, z2)
    requires Check(c, CommitmentEquations(c, pk, H, ct, P), A, e1, z1)
    requires Check(c, CommitmentEquations(c, pk, H, ct, P), A, e2, z2)
    ensures v < c.q && r < c.q && s < c.q && Encrypts(c, ct, pk, v, r) && Opens(c, H, P, v, s)
  {
    SpecialSoundness(c, CommitmentEquations(c, pk, H, ct, P), A, e1, z1, e2, z2);
    var w := Extract(c.q, e1, z1, e2, z2);
    v, r, s := w[0], w[1], w[2];
    assert w == [v, r, s];
    CommitmentMeaning(c, pk, H, ct, P, v, r, s);
  }

  /**
   Two accepting transcripts with the same commitments and different challenges yield one value v
   that opens both: it is the ciphertext's only plaintext, and a second opening of the commitment to
   another value would reveal the discrete logarithm of H.
   */
  lemma CommitmentSoundness(c: Curve, pk: Affine, H: Affine, ct: Ciphertext, P: Affine, A: seq<Affine>,
                            e1: nat, z1: seq<nat>, e2: nat, z2: seq<nat>) returns (v: nat, r: nat, s: nat)
    requires c.Valid() && c.OnCurve(pk) && c.OnCurve(H) && ValidCiphertext(c, ct) && c.OnCurve(P) && AllOnCurve(c, A)
    requires e1 < c.q && e2 < c.q && e1 != e2
    requires |z1| == |z2| == 3 && IsScalars(c.q, z1) && IsScalars(c.q, z2)
    requires Check(c, CommitmentEquations(c, pk, H, ct, P), A, e1, z1)
    requires Check(c, CommitmentEquations(c, pk, H, ct, P), A, e2, z2)
    ensures v < c.q && r < c.q && s < c.q && Encrypts(c, ct, pk, v, r) && Opens(c, H, P, v, s)
    ensures forall v': nat, r': nat :: v' < c.q && r' < c.q && Encrypts(c, ct, pk, v', r') ==> v' == v
    ensures forall v': nat, s': nat :: v' < c.q && s' < c.q && Opens(c, H, P, v', s') && v' != v ==>
              s != s' && c.Mul(MulQ(c.q, Inverse(c.q, SubQ(c.q, s, s')), SubQ(c.q, v', v)), c.G) == H
  {
    v, r, s := ExtractOpening(c, pk, H, ct, P, A, e1, z1, e2, z2);
    forall v': nat, r': nat | v' < c.q && r' < c.q && Encrypts(c, ct, pk, v', r') ensures v' == v {
      PlaintextUnique(c, ct, pk, v, r, v', r');
    }
    forall v': nat, s': nat | v' < c.q && s' < c.q && Opens(c, H, P, v', s') && v' != v
      ensures s != s' && c.Mul(MulQ(c.q, Inverse(c.q, SubQ(c.q, s, s')), SubQ(c.q, v', v)), c.G) == H
    {
      var x := TwoOpenings(c, H, P, v, s, v', s');
    }
  }

  /** An honest proof is accepted exactly when neither C1, P nor a nonce commitment is the identity. */
  lemma HonestCommitmentAccepted(c: Curve, keccak: bytes -> Digest, state: bytes, pk: Affine, H: Affine, ct: Ciphertext,
                                 P: Affine, w: seq<nat>, k: seq<nat>)
    requires c.Valid() && ValidPublicKey(c, pk) && ValidPublicKey(c, H) && |w| == |k| == 3
    requires Encrypts(c, ct, pk, w[0], w[1]) && Opens(c, H, P, w[0], w[2])
    ensures AllIndexed(3, CommitmentEquations(c, pk, H, ct, P))
    ensures var claim := CommitmentClaim(c, pk, H, ct, P);
            Accepts(c, keccak, claim, state, HonestProof(c, keccak, claim, state, w, k))
            <==> ct.C1 != INFINITY && P != INFINITY && INFINITY !in Commit(c, claim.equations, k)
  {
    var claim := CommitmentClaim(c, pk, H, ct, P);
    EncryptsIsOnCurve(c, ct, pk, w[0], w[1]);
    MulClosed(c, w[0], c.G);
    MulClosed(c, w[2], H);
    PlusClosed(c, c.Mul(w[0], c.G), c.Mul(w[2], H));
    assert w == [w[0], w[1], w[2]];
    CommitmentMeaning(c, pk, H, ct, P, w[0], w[1], w[2]);
    HonestAccepted(c, keccak, claim, state, w, k);
    var A := Commit(c, claim.equations, k);
    forall i | 0 <= i < |A| ensures c.OnCurve(A[i]) {
      CombineClosed(c, k, claim.equations[i].terms);
    }
  }
}
