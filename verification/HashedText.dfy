/**
 The hashed bytes spelled out. For each protocol, decoding what is hashed for its challenge gives the
 caller's context and then exactly these (label, data) pairs, in this order, and this challenge label.
 */
module HashedText {
  import opened Scalars
  import opened Bytes
  import opened Curves
  import opened Encoding
  import opened Transcripts
  import opened FiatShamir
  import opened ProofTranscripts
  import opened Ciphertexts
  import opened Dleq
  import opened Equality
  import opened ApplyPending
  import opened CommitmentEquality
  import opened Possession
  import opened Sessions

  /** Without a caller transcript, a proof starts from the default domain. */
  lemma DefaultStart()
    ensures StartState(null) ==
            [17, 0, 0, 0] + [120, 47, 99, 111, 110, 102, 105, 100, 101, 110, 116, 105, 97, 108, 47, 118, 49]
  {
    LengthPrefix(DEFAULT_DOMAIN, 17);
  }

  /** The prefix of a short frame is one byte and three zeros. */
  lemma LengthPrefix(data: bytes, n: nat)
    requires |data| == n < 256
    ensures Frame(data) == [n, 0, 0, 0] + data
  {
    assert ToLittleEndian(0, 3) == [0] + ToLittleEndian(0, 2) == [0, 0] + ToLittleEndian(0, 1) == [0, 0, 0];
    assert ToLittleEndian(n, 4) == [n] + ToLittleEndian(0, 3);
  }

  lemma PointItemsAre(points: seq<Labelled>, items: seq<Item>)
    requires |points| == |items|
    requires forall i :: 0 <= i < |points| ==> items[i] == Item(points[i].tag, MarshalPoint(points[i].point))
    ensures PointItems(points) == items
  {
  }

  lemma LabelsAre(tags: seq<bytes>, A: seq<Affine>, items: seq<Item>)
    requires |tags| == |A| == |items|
    requires forall i :: 0 <= i < |A| ==> items[i] == Item(tags[i], MarshalPoint(A[i]))
    ensures PointItems(Label(tags, A)) == items
  {
  }

  lemma Decodes(domain: bytes, context: seq<Item>, claim: Claim, A: seq<Affine>)
    requires Short(domain) && ShortItems(context) && ShortClaim(claim) && |claim.commitmentTags| == |A|
    ensures DecodeTranscript(Hashed(domain, context, claim, A))
            == Some((domain, context + Items(claim, A), claim.challengeTag))
  {
    ItemsAreShort(claim, A);
    HashInputSplits(Frame(domain), context, Items(claim, A), claim.challengeTag);
    DecodesTranscript(domain, context + Items(claim, A), claim.challengeTag);
  }

  lemma DecodesWithoutData(domain: bytes, context: seq<Item>, claim: Claim, A: seq<Affine>,
                           points: seq<Item>, commitments: seq<Item>)
    requires Short(domain) && ShortItems(context) && ShortClaim(claim) && |claim.commitmentTags| == |A|
    requires claim.extra == [] && PointItems(claim.points) == points
    requires PointItems(Label(claim.commitmentTags, A)) == commitments
    ensures DecodeTranscript(Hashed(domain, context, claim, A))
            == Some((domain, context + ([Item(Ascii("proof_type"), claim.proofType)] + points + commitments),
                     claim.challengeTag))
  {
    Decodes(domain, context, claim, A);
    var header := [Item(Ascii("proof_type"), claim.proofType)];
    assert header + points + [] == header + points;
    assert Items(claim, A) == header + points + commitments;
  }

  lemma DleqText(c: Curve, domain: bytes, context: seq<Item>,
                 pk: Affine, ct: Ciphertext, amount: uint64, R1: Affine, R2: Affine)
    requires Short(domain) && ShortItems(context)
    ensures DecodeTranscript(Hashed(domain, context, DleqClaim(c, pk, ct, amount), [R1, R2]))
            == Some((domain,
                     context + (
                     [Item(Ascii("proof_type"), Ascii("dleq"))]
                     + [Item(Ascii("pk"), MarshalPoint(pk)), Item(Ascii("C1"), MarshalPoint(ct.C1)),
                        Item(Ascii("C2"), MarshalPoint(ct.C2))]
                     + [Item(Ascii("amount"), ToLittleEndian(amount, 8))]
                     + [Item(Ascii("R1"), MarshalPoint(R1)), Item(Ascii("R2"), MarshalPoint(R2))]),
                     Ascii("dleq_challenge")))
  {
    var claim := DleqClaim(c, pk, ct, amount);
    var points :=
      [Item(Ascii("pk"), MarshalPoint(pk)), Item(Ascii("C1"), MarshalPoint(ct.C1)),
       Item(Ascii("C2"), MarshalPoint(ct.C2))];
    var commitments :=
      [Item(Ascii("R1"), MarshalPoint(R1)), Item(Ascii("R2"), MarshalPoint(R2))];
    PointItemsAre(claim.points, points);
    LabelsAre(claim.commitmentTags, [R1, R2], commitments);
    StatementIsShort(c, DleqStatement(pk, ct, amount));
    Decodes(domain, context, claim, [R1, R2]);
  }

  lemma EqualityText(c: Curve, domain: bytes, context: seq<Item>,
                     pk1: Affine, pk2: Affine, pk3: Affine,
                     ct1: Ciphertext, ct2: Ciphertext, ct3: Ciphertext,
                     R11: Affine, R21: Affine, R12: Affine, R22: Affine, R13: Affine, R23: Affine)
    requires Short(domain) && ShortItems(context)
    ensures DecodeTranscript(Hashed(domain, context, EqualityClaim(c, pk1, pk2, pk3, ct1, ct2, ct3),
                                    [R11, R21, R12, R22, R13, R23]))
            == Some((domain,
                     context + (
                     [Item(Ascii("proof_type"), Ascii("equality"))]
                     + [Item(Ascii("pk1"), MarshalPoint(pk1)), Item(Ascii("pk2"), MarshalPoint(pk2)),
                        Item(Ascii("pk3"), MarshalPoint(pk3)), Item(Ascii("ct1_C1"), MarshalPoint(ct1.C1)),
                        Item(Ascii("ct1_C2"), MarshalPoint(ct1.C2)), Item(Ascii("ct2_C1"), MarshalPoint(ct2.C1)),
                        Item(Ascii("ct2_C2"), MarshalPoint(ct2.C2)), Item(Ascii("ct3_C1"), MarshalPoint(ct3.C1)),
                        Item(Ascii("ct3_C2"), MarshalPoint(ct3.C2))]
                     + [Item(Ascii("R11"), MarshalPoint(R11)), Item(Ascii("R21"), MarshalPoint(R21)),
                        Item(Ascii("R12"), MarshalPoint(R12)), Item(Ascii("R22"), MarshalPoint(R22)),
                        Item(Ascii("R13"), MarshalPoint(R13)), Item(Ascii("R23"), MarshalPoint(R23))]),
                     Ascii("equality_challenge")))
  {
    var claim := EqualityClaim(c, pk1, pk2, pk3, ct1, ct2, ct3);
    var points :=
      [Item(Ascii("pk1"), MarshalPoint(pk1)), Item(Ascii("pk2"), MarshalPoint(pk2)),
       Item(Ascii("pk3"), MarshalPoint(pk3)), Item(Ascii("ct1_C1"), MarshalPoint(ct1.C1)),
       Item(Ascii("ct1_C2"), MarshalPoint(ct1.C2)), Item(Ascii("ct2_C1"), MarshalPoint(ct2.C1)),
       Item(Ascii("ct2_C2"), MarshalPoint(ct2.C2)), Item(Ascii("ct3_C1"), MarshalPoint(ct3.C1)),
       Item(Ascii("ct3_C2"), MarshalPoint(ct3.C2))];
    var commitments :=
      [Item(Ascii("R11"), MarshalPoint(R11)), Item(Ascii("R21"), MarshalPoint(R21)),
       Item(Ascii("R12"), MarshalPoint(R12)), Item(Ascii("R22"), MarshalPoint(R22)),
       Item(Ascii("R13"), MarshalPoint(R13)), Item(Ascii("R23"), MarshalPoint(R23))];
    PointItemsAre(claim.points, points);
    LabelsAre(claim.commitmentTags, [R11, R21, R12, R22, R13, R23], commitments);
    StatementIsShort(c, EqualityStatement(pk1, pk2, pk3, ct1, ct2, ct3));
    DecodesWithoutData(domain, context, claim, [R11, R21, R12, R22, R13, R23], points, commitments);
  }

  lemma Equality2Text(c: Curve, domain: bytes, context: seq<Item>,
                      pk1: Affine, pk2: Affine, ct1: Ciphertext, ct2: Ciphertext,
                      R11: Affine, R21: Affine, R12: Affine, R22: Affine)
    requires Short(domain) && ShortItems(context)
    ensures DecodeTranscript(Hashed(domain, context, Equality2Claim(c, pk1, pk2, ct1, ct2), [R11, R21, R12, R22]))
            == Some((domain,
                     context + (
                     [Item(Ascii("proof_type"), Ascii("equality2"))]
                     + [Item(Ascii("pk1"), MarshalPoint(pk1)), Item(Ascii("pk2"), MarshalPoint(pk2)),
                        Item(Ascii("ct1_C1"), MarshalPoint(ct1.C1)), Item(Ascii("ct1_C2"), MarshalPoint(ct1.C2)),
                        Item(Ascii("ct2_C1"), MarshalPoint(ct2.C1)), Item(Ascii("ct2_C2"), MarshalPoint(ct2.C2))]
                     + [Item(Ascii("R11"), MarshalPoint(R11)), Item(Ascii("R21"), MarshalPoint(R21)),
                        Item(Ascii("R12"), MarshalPoint(R12)), Item(Ascii("R22"), MarshalPoint(R22))]),
                     Ascii("equality2_challenge")))
  {
    var claim := Equality2Claim(c, pk1, pk2, ct1, ct2);
    var points :=
      [Item(Ascii("pk1"), MarshalPoint(pk1)), Item(Ascii("pk2"), MarshalPoint(pk2)),
       Item(Ascii("ct1_C1"), MarshalPoint(ct1.C1)), Item(Ascii("ct1_C2"), MarshalPoint(ct1.C2)),
       Item(Ascii("ct2_C1"), MarshalPoint(ct2.C1)), Item(Ascii("ct2_C2"), MarshalPoint(ct2.C2))];
    var commitments :=
      [Item(Ascii("R11"), MarshalPoint(R11)), Item(Ascii("R21"), MarshalPoint(R21)),
       Item(Ascii("R12"), MarshalPoint(R12)), Item(Ascii("R22"), MarshalPoint(R22))];
    PointItemsAre(claim.points, points);
    LabelsAre(claim.commitmentTags, [R11, R21, R12, R22], commitments);
    StatementIsShort(c, Equality2Statement(pk1, pk2, ct1, ct2));
    DecodesWithoutData(domain, context, claim, [R11, R21, R12, R22], points, commitments);
  }

  lemma ApplyText(c: Curve, domain: bytes, context: seq<Item>,
                  pk: Affine, pending: Ciphertext, newCt: Ciphertext, R1: Affine, R2: Affine, R3: Affine, R4: Affine)
    requires Short(domain) && ShortItems(context)
    ensures DecodeTranscript(Hashed(domain, context, ApplyClaim(c, pk, pending, newCt), [R1, R2, R3, R4]))
            == Some((domain,
                     context + (
                     [Item(Ascii("proof_type"), Ascii("apply_pending"))]
                     + [Item(Ascii("pk"), MarshalPoint(pk)),
                        Item(Ascii("pending_C1"), MarshalPoint(pending.C1)),
                        Item(Ascii("pending_C2"), MarshalPoint(pending.C2)),
                        Item(Ascii("new_C1"), MarshalPoint(newCt.C1)),
                        Item(Ascii("new_C2"), MarshalPoint(newCt.C2))]
                     + [Item(Ascii("R1"), MarshalPoint(R1)),
                        Item(Ascii("R2"), MarshalPoint(R2)),
                        Item(Ascii("R3"), MarshalPoint(R3)),
                        Item(Ascii("R4"), MarshalPoint(R4))]),
                     Ascii("apply_pending_challenge")))
  {
    var claim := ApplyClaim(c, pk, pending, newCt);
    var points :=
      [Item(Ascii("pk"), MarshalPoint(pk)),
       Item(Ascii("pending_C1"), MarshalPoint(pending.C1)),
       Item(Ascii("pending_C2"), MarshalPoint(pending.C2)),
       Item(Ascii("new_C1"), MarshalPoint(newCt.C1)),
       Item(Ascii("new_C2"), MarshalPoint(newCt.C2))];
    var commitments :=
      [Item(Ascii("R1"), MarshalPoint(R1)),
       Item(Ascii("R2"), MarshalPoint(R2)),
       Item(Ascii("R3"), MarshalPoint(R3)),
       Item(Ascii("R4"), MarshalPoint(R4))];
    PointItemsAre(claim.points, points);
    LabelsAre(claim.commitmentTags, [R1, R2, R3, R4], commitments);
    StatementIsShort(c, ApplyStatement(pk, pending, newCt));
    DecodesWithoutData(domain, context, claim, [R1, R2, R3, R4], points, commitments);
  }

  lemma CommitmentText(c: Curve, domain: bytes, context: seq<Item>,
                       pk: Affine, H: Affine, ct: Ciphertext, P: Affine, A1: Affine, A2: Affine, A3: Affine)
    requires Short(domain) && ShortItems(context)
    ensures DecodeTranscript(Hashed(domain, context, CommitmentClaim(c, pk, H, ct, P), [A1, A2, A3]))
            == Some((domain,
                     context + (
                     [Item(Ascii("proof_type"), Ascii("commitment-equality"))]
                     + [Item(Ascii("pk"), MarshalPoint(pk)), Item(Ascii("H"), MarshalPoint(H)),
                        Item(Ascii("C1"), MarshalPoint(ct.C1)), Item(Ascii("C2"), MarshalPoint(ct.C2)),
                        Item(Ascii("P"), MarshalPoint(P))]
                     + [Item(Ascii("A1"), MarshalPoint(A1)), Item(Ascii("A2"), MarshalPoint(A2)),
                        Item(Ascii("A3"), MarshalPoint(A3))]),
                     Ascii("commitment_equality_challenge")))
  {
    var claim := CommitmentClaim(c, pk, H, ct, P);
    var points :=
      [Item(Ascii("pk"), MarshalPoint(pk)), Item(Ascii("H"), MarshalPoint(H)),
       Item(Ascii("C1"), MarshalPoint(ct.C1)), Item(Ascii("C2"), MarshalPoint(ct.C2)),
       Item(Ascii("P"), MarshalPoint(P))];
    var commitments :=
      [Item(Ascii("A1"), MarshalPoint(A1)), Item(Ascii("A2"), MarshalPoint(A2)),
       Item(Ascii("A3"), MarshalPoint(A3))];
    PointItemsAre(claim.points, points);
    LabelsAre(claim.commitmentTags, [A1, A2, A3], commitments);
    StatementIsShort(c, CommitmentStatement(pk, H, ct, P));
    DecodesWithoutData(domain, context, claim, [A1, A2, A3], points, commitments);
  }

  lemma PopText(c: Curve, domain: bytes, context: seq<Item>,
                pk: Affine, A: Affine)
    requires Short(domain) && ShortItems(context)
    ensures DecodeTranscript(Hashed(domain, context, PopClaim(c, pk), [A]))
            == Some((domain,
                     context + (
                     [Item(Ascii("proof_type"), Ascii("pop"))]
                     + [Item(Ascii("pk"), MarshalPoint(pk))]
                     + [Item(Ascii("A"), MarshalPoint(A))]),
                     Ascii("pop_challenge")))
  {
    var claim := PopClaim(c, pk);
    var points :=
      [Item(Ascii("pk"), MarshalPoint(pk))];
    var commitments :=
      [Item(Ascii("A"), MarshalPoint(A))];
    PointItemsAre(claim.points, points);
    LabelsAre(claim.commitmentTags, [A], commitments);
    StatementIsShort(c, PopStatement(pk));
    DecodesWithoutData(domain, context, claim, [A], points, commitments);
  }
}
