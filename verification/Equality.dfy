/**
 Equal plaintexts: ciphertexts under several keys all encrypt one amount m, with randomness r1, r2, ...
 The three-key and the two-key protocol run the same loops, written here once for any number of keys.
 */
module Equality {
  import opened Scalars
  import opened Bytes
  import opened Curves
  import opened Transcripts
  import opened Sigma
  import opened FiatShamir
  import opened ProofTranscripts
  import opened Ciphertexts
  import opened DiscreteLogs
  import opened ElGamal

  datatype EqualityProof = EqualityProof(
    Sm: nat, Sr1: nat, Sr2: nat, Sr3: nat,
    R11: Affine, R21: Affine, R12: Affine, R22: Affine, R13: Affine, R23: Affine)
  {
    function View(): Proof { Proof([R11, R21, R12, R22, R13, R23], [Sm, Sr1, Sr2, Sr3]) }
  }

  datatype Equality2Proof = Equality2Proof(
    Sm: nat, Sr1: nat, Sr2: nat,
    R11: Affine, R21: Affine, R12: Affine, R22: Affine)
  {
    function View(): Proof { Proof([R11, R21, R12, R22], [Sm, Sr1, Sr2]) }
  }

  /** r_i * G == C1_i, the unknowns being m, r_1, r_2, ... */
  function RandomnessRow(c: Curve, i: nat, ct: Ciphertext): Equation
  {
    Equation([Term(i + 1, c.G)], ct.C1)
  }

  /** m * G + r_i * pk_i == C2_i */
  function MessageRow(c: Curve, i: nat, pk: Affine, ct: Ciphertext): Equation
  {
    Equation([Term(0, c.G), Term(i + 1, pk)], ct.C2)
  }

  /** The two rows of every key, key by key. */
  function KeyEquations(c: Curve, pks: seq<Affine>, cts: seq<Ciphertext>): (eqs: seq<Equation>)
    requires |pks| == |cts|
    ensures |eqs| == 2 * |pks|
  {
    seq(2 * |pks|, j requires 0 <= j < 2 * |pks| =>
      if j % 2 == 0 then RandomnessRow(c, j / 2, cts[j / 2]) else MessageRow(c, j / 2, pks[j / 2], cts[j / 2]))
  }

  /** Commitments in transcript order: R11, R21, R12, R22, ... */
  function Interleave(r1s: seq<Affine>, r2s: seq<Affine>): (A: seq<Affine>)
    requires |r1s| == |r2s|
    ensures |A| == 2 * |r1s|
  {
    seq(2 * |r1s|, j requires 0 <= j < 2 * |r1s| => if j % 2 == 0 then r1s[j / 2] else r2s[j / 2])
  }

  lemma Interleave3(a: seq<Affine>, b: seq<Affine>)
    requires |a| == |b| == 3
    ensures Interleave(a, b) == [a[0], b[0], a[1], b[1], a[2], b[2]]
  {
  }

  lemma Interleave2(a: seq<Affine>, b: seq<Affine>)
    requires |a| == |b| == 2
    ensures Interleave(a, b) == [a[0], b[0], a[1], b[1]]
  {
  }

  lemma Prepend3(x: nat, s: seq<nat>)
    requires |s| == 3
    ensures [x] + s == [x, s[0], s[1], s[2]]
  {
  }

  lemma Prepend2(x: nat, s: seq<nat>)
    requires |s| == 2
    ensures [x] + s == [x, s[0], s[1]]
  {
  }

  lemma KeyEquationsIndexed(c: Curve, pks: seq<Affine>, cts: seq<Ciphertext>)
    requires |pks| == |cts|
    ensures AllIndexed(|pks| + 1, KeyEquations(c, pks, cts))
  {
  }

  lemma KeyRowValues(c: Curve, i: nat, pk: Affine, ct: Ciphertext, x: seq<nat>)
    requires i + 1 < |x|
    ensures Indexed(|x|, RandomnessRow(c, i, ct).terms) && Indexed(|x|, MessageRow(c, i, pk, ct).terms)
    ensures Combine(c, x, RandomnessRow(c, i, ct).terms) == c.Mul(x[i + 1], c.G)
    ensures Combine(c, x, MessageRow(c, i, pk, ct).terms) == c.Plus(c.Mul(x[0], c.G), c.Mul(x[i + 1], pk))
  {
    CombineOne(c, x, Term(i + 1, c.G));
    CombineTwo(c, x, Term(0, c.G), Term(i + 1, pk));
  }

  // ---------- the loops ----------

  function FirstCommitment(c: Curve, kr: nat): Affine
  {
    c.Mul(kr, c.G)
  }

  function SecondCommitment(c: Curve, km: nat, kr: nat, pk: Affine): Affine
  {
    c.Plus(c.Mul(km, c.G), c.Mul(kr, pk))
  }

  method CommitKey(c: Curve, km: nat, kr: nat, pk: Affine) returns (r1: Affine, r2: Affine)
    ensures r1 == FirstCommitment(c, kr) && r2 == SecondCommitment(c, km, kr, pk)
  {
    r1 := c.Mul(kr, c.G);
    var kmG := c.Mul(km, c.G);
    var krPk := c.Mul(kr, pk);
    var r2Jac := FromAffine(kmG);
    r2Jac := c.JacAdd(r2Jac, FromAffine(krPk));
    r2 := c.Normalize(r2Jac);
  }

  /** R1_i = kr_i * G and R2_i = km * G + kr_i * pk_i for every key. */
  method CommitKeys(c: Curve, km: nat, krs: seq<nat>, pks: seq<Affine>, ghost cts: seq<Ciphertext>)
    returns (r1s: array<Affine>, r2s: array<Affine>)
    requires |pks| == |krs| == |cts|
    ensures fresh(r1s) && fresh(r2s) && r1s.Length == r2s.Length == |pks|
    ensures AllIndexed(|pks| + 1, KeyEquations(c, pks, cts))
    ensures Interleave(r1s[..], r2s[..]) == Commit(c, KeyEquations(c, pks, cts), [km] + krs)
  {
    KeyEquationsIndexed(c, pks, cts);
    r1s := new Affine[|pks|](_ => INFINITY);
    r2s := new Affine[|pks|](_ => INFINITY);
    var i := 0;
    while i < |pks|
      invariant i <= |pks|
      invariant forall j :: 0 <= j < i ==> r1s[j] == FirstCommitment(c, krs[j])
      invariant forall j :: 0 <= j < i ==> r2s[j] == SecondCommitment(c, km, krs[j], pks[j])
    {
      r1s[i], r2s[i] := CommitKey(c, km, krs[i], pks[i]);
      i := i + 1;
    }
    CommitKeysIs(c, km, krs, pks, cts, r1s[..], r2s[..]);
  }

  lemma CommitKeysIs(c: Curve, km: nat, krs: seq<nat>, pks: seq<Affine>, cts: seq<Ciphertext>,
                     r1s: seq<Affine>, r2s: seq<Affine>)
    requires |pks| == |krs| == |cts| == |r1s| == |r2s|
    requires forall j :: 0 <= j < |pks| ==> r1s[j] == FirstCommitment(c, krs[j])
    requires forall j :: 0 <= j < |pks| ==> r2s[j] == SecondCommitment(c, km, krs[j], pks[j])
    ensures AllIndexed(|pks| + 1, KeyEquations(c, pks, cts))
    ensures Interleave(r1s, r2s) == Commit(c, KeyEquations(c, pks, cts), [km] + krs)
  {
    KeyEquationsIndexed(c, pks, cts);
    forall j | 0 <= j < 2 * |pks|
      ensures Interleave(r1s, r2s)[j] == Commit(c, KeyEquations(c, pks, cts), [km] + krs)[j]
    {
      KeyRowValues(c, j / 2, pks[j / 2], cts[j / 2], [km] + krs);
    }
  }

  /** sm = km + e * m and sr_i = kr_i + e * r_i, with the amount reduced into the field. */
  method RespondKeys(c: Curve, km: nat, krs: seq<nat>, e: nat, amount: uint64, rs: seq<nat>)
    returns (sm: nat, srs: array<nat>)
    requires c.q > 0 && |krs| == |rs|
    ensures fresh(srs) && srs.Length == |rs|
    ensures [sm] + srs[..] == Respond(c.q, [km] + krs, e, [amount % c.q] + rs)
  {
    sm := AddQ(c.q, km, MulQ(c.q, e, amount % c.q));
    srs := new nat[|rs|](_ => 0);
    var i := 0;
    while i < |rs|
      invariant i <= |rs|
      invariant forall j :: 0 <= j < i ==> srs[j] == AddQ(c.q, krs[j], MulQ(c.q, e, rs[j]))
    {
      var eR := MulQ(c.q, e, rs[i]);
      srs[i] := AddQ(c.q, krs[i], eR);
      i := i + 1;
    }
  }

  /** The two equations of one key. */
  method CheckKey(c: Curve, pk: Affine, ct: Ciphertext, R1: Affine, R2: Affine, sm: nat, sr: nat, e: nat)
    returns (ok: bool)
    ensures ok == KeyHolds(c, pk, ct, R1, R2, sm, sr, e)
  {
    // Sr_i*G == R1_i + e*C1_i
    var lhs1 := c.Mul(sr, c.G);
    var eC1 := c.Mul(e, ct.C1);
    var rhs1Jac := FromAffine(R1);
    rhs1Jac := c.JacAdd(rhs1Jac, FromAffine(eC1));
    var rhs1 := c.Normalize(rhs1Jac);
    if lhs1 != rhs1 {
      return false;
    }

    // Sm*G + Sr_i*pk_i == R2_i + e*C2_i
    var smG := c.Mul(sm, c.G);
    var srPk := c.Mul(sr, pk);
    var lhs2Jac := FromAffine(smG);
    lhs2Jac := c.JacAdd(lhs2Jac, FromAffine(srPk));
    var lhs2 := c.Normalize(lhs2Jac);
    var eC2 := c.Mul(e, ct.C2);
    var rhs2Jac := FromAffine(R2);
    rhs2Jac := c.JacAdd(rhs2Jac, FromAffine(eC2));
    var rhs2 := c.Normalize(rhs2Jac);
    return lhs2 == rhs2;
  }

  predicate KeyHolds(c: Curve, pk: Affine, ct: Ciphertext, R1: Affine, R2: Affine, sm: nat, sr: nat, e: nat)
  {
    && c.Mul(sr, c.G) == c.Plus(R1, c.Mul(e, ct.C1))
    && c.Plus(c.Mul(sm, c.G), c.Mul(sr, pk)) == c.Plus(R2, c.Mul(e, ct.C2))
  }

  ghost predicate KeysHold(c: Curve, pks: seq<Affine>, cts: seq<Ciphertext>, r1s: seq<Affine>, r2s: seq<Affine>,
                           sm: nat, srs: seq<nat>, e: nat, n: nat)
    requires |pks| == |cts| == |r1s| == |r2s| == |srs| && n <= |pks|
  {
    forall i :: 0 <= i < n ==> KeyHolds(c, pks[i], cts[i], r1s[i], r2s[i], sm, srs[i], e)
  }

  lemma KeysHoldIffCheck(c: Curve, pks: seq<Affine>, cts: seq<Ciphertext>, r1s: seq<Affine>, r2s: seq<Affine>,
                         sm: nat, srs: seq<nat>, e: nat)
    requires |pks| == |cts| == |r1s| == |r2s| == |srs|
    ensures KeysHold(c, pks, cts, r1s, r2s, sm, srs, e, |pks|)
            <==> Check(c, KeyEquations(c, pks, cts), Interleave(r1s, r2s), e, [sm] + srs)
  {
    var eqs, A, z := KeyEquations(c, pks, cts), Interleave(r1s, r2s), [sm] + srs;
    forall j | 0 <= j < |eqs| && KeysHold(c, pks, cts, r1s, r2s, sm, srs, e, |pks|)
      ensures RowHolds(c, eqs[j], A[j], e, z)
    {
      assert KeyHolds(c, pks[j / 2], cts[j / 2], r1s[j / 2], r2s[j / 2], sm, srs[j / 2], e);
      KeyRowsHold(c, pks, cts, r1s, r2s, sm, srs, e, j / 2);
      assert j == 2 * (j / 2) || j == 2 * (j / 2) + 1;
    }
    forall i | 0 <= i < |pks| && Check(c, eqs, A, e, z)
      ensures KeyHolds(c, pks[i], cts[i], r1s[i], r2s[i], sm, srs[i], e)
    {
      KeyRowsHold(c, pks, cts, r1s, r2s, sm, srs, e, i);
      assert RowHolds(c, eqs[2 * i], A[2 * i], e, z) && RowHolds(c, eqs[2 * i + 1], A[2 * i + 1], e, z);
    }
  }

  /** The two equations of key i are rows 2i and 2i + 1 of the statement. */
  lemma KeyRowsHold(c: Curve, pks: seq<Affine>, cts: seq<Ciphertext>, r1s: seq<Affine>, r2s: seq<Affine>,
                    sm: nat, srs: seq<nat>, e: nat, i: nat)
    requires |pks| == |cts| == |r1s| == |r2s| == |srs| && i < |pks|
    ensures var eqs, A, z := KeyEquations(c, pks, cts), Interleave(r1s, r2s), [sm] + srs;
            && (RowHolds(c, eqs[2 * i], A[2 * i], e, z)
                <==> c.Mul(srs[i], c.G) == c.Plus(r1s[i], c.Mul(e, cts[i].C1)))
            && (RowHolds(c, eqs[2 * i + 1], A[2 * i + 1], e, z)
                <==> c.Plus(c.Mul(sm, c.G), c.Mul(srs[i], pks[i])) == c.Plus(r2s[i], c.Mul(e, cts[i].C2)))
  {
    var eqs, A, z := KeyEquations(c, pks, cts), Interleave(r1s, r2s), [sm] + srs;
    assert eqs[2 * i] == RandomnessRow(c, i, cts[i]) && A[2 * i] == r1s[i];
    assert eqs[2 * i + 1] == MessageRow(c, i, pks[i], cts[i]) && A[2 * i + 1] == r2s[i];
    KeyRowValues(c, i, pks[i], cts[i], z);
  }

  /** The verification loop: two equations for each key, stopping at the first that fails. */
  method CheckKeys(c: Curve, pks: seq<Affine>, cts: seq<Ciphertext>, r1s: seq<Affine>, r2s: seq<Affine>,
                   sm: nat, srs: seq<nat>, e: nat) returns (ok: bool)
    requires |pks| == |cts| == |r1s| == |r2s| == |srs|
    ensures ok == Check(c, KeyEquations(c, pks, cts), Interleave(r1s, r2s), e, [sm] + srs)
  {
    var i := 0;
    while i < |pks|
      invariant i <= |pks| && KeysHold(c, pks, cts, r1s, r2s, sm, srs, e, i)
    {
      var keyOk := CheckKey(c, pks[i], cts[i], r1s[i], r2s[i], sm, srs[i], e);
      if !keyOk {
        KeysHoldIffCheck(c, pks, cts, r1s, r2s, sm, srs, e);
        return false;
      }
      i := i + 1;
    }
    KeysHoldIffCheck(c, pks, cts, r1s, r2s, sm, srs, e);
    return true;
  }

  predicate AllValid(c: Curve, pks: seq<Affine>, cts: seq<Ciphertext>)
  {
    && (forall i :: 0 <= i < |pks| ==> ValidPublicKey(c, pks[i]))
    && (forall i :: 0 <= i < |cts| ==> ValidCiphertext(c, cts[i]))
  }

  method ValidateAll(c: Curve, pks: seq<Affine>, cts: seq<Ciphertext>) returns (ok: bool)
    ensures ok == AllValid(c, pks, cts)
  {
    var i := 0;
    while i < |pks|
      invariant i <= |pks| && forall j :: 0 <= j < i ==> ValidPublicKey(c, pks[j])
    {
      if !ValidPublicKey(c, pks[i]) {
        return false;
      }
      i := i + 1;
    }
    i := 0;
    while i < |cts|
      invariant i <= |cts| && forall j :: 0 <= j < i ==> ValidCiphertext(c, cts[j])
    {
      if !ValidCiphertext(c, cts[i]) {
        return false;
      }
      i := i + 1;
    }
    return true;
  }

  // ---------- three keys ----------

  function EqualityClaim(c: Curve, pk1: Affine, pk2: Affine, pk3: Affine,
                         ct1: Ciphertext, ct2: Ciphertext, ct3: Ciphertext): Claim
  {
    Claim(Ascii("equality"),
          [Labelled(Ascii("pk1"), pk1), Labelled(Ascii("pk2"), pk2), Labelled(Ascii("pk3"), pk3),
           Labelled(Ascii("ct1_C1"), ct1.C1), Labelled(Ascii("ct1_C2"), ct1.C2),
           Labelled(Ascii("ct2_C1"), ct2.C1), Labelled(Ascii("ct2_C2"), ct2.C2),
           Labelled(Ascii("ct3_C1"), ct3.C1), Labelled(Ascii("ct3_C2"), ct3.C2)],
          [],
          [Ascii("R11"), Ascii("R21"), Ascii("R12"), Ascii("R22"), Ascii("R13"), Ascii("R23")],
          Ascii("equality_challenge"),
          KeyEquations(c, [pk1, pk2, pk3], [ct1, ct2, ct3]),
          true,
          AllValid(c, [pk1, pk2, pk3], [ct1, ct2, ct3]), false)
  }

  method ProveEquality(c: Curve, keccak: bytes -> Digest, amount: uint64, r1: nat, r2: nat, r3: nat,
                       pk1: Affine, pk2: Affine, pk3: Affine, ct1: Ciphertext, ct2: Ciphertext, ct3: Ciphertext,
                       transcript: Transcript?, km: nat, kr1: nat, kr2: nat, kr3: nat) returns (proof: EqualityProof)
    requires c.q > 0 && Usable(transcript, keccak)
    modifies transcript
    ensures var claim := EqualityClaim(c, pk1, pk2, pk3, ct1, ct2, ct3);
            && AllIndexed(4, claim.equations)
            && proof.View() == HonestProof(c, keccak, claim, old(StartState(transcript)),
                                           [amount % c.q, r1, r2, r3], [km, kr1, kr2, kr3])
            && EndsIn(transcript, StateAfter(keccak, claim, old(StartState(transcript)), proof.View().commitments))
  {
    ghost var claim := EqualityClaim(c, pk1, pk2, pk3, ct1, ct2, ct3);
    var krs, rs := [kr1, kr2, kr3], [r1, r2, r3];
    var a1s, a2s := CommitKeys(c, km, krs, [pk1, pk2, pk3], [ct1, ct2, ct3]);
    var r1s, r2s := a1s[..], a2s[..];

    var t := OpenTranscript(transcript, keccak);
    ghost var before := t.pending;
    var points := [Labelled(Ascii("pk1"), pk1), Labelled(Ascii("pk2"), pk2), Labelled(Ascii("pk3"), pk3),
                   Labelled(Ascii("ct1_C1"), ct1.C1), Labelled(Ascii("ct1_C2"), ct1.C2),
                   Labelled(Ascii("ct2_C1"), ct2.C1), Labelled(Ascii("ct2_C2"), ct2.C2),
                   Labelled(Ascii("ct3_C1"), ct3.C1), Labelled(Ascii("ct3_C2"), ct3.C2)];
    var commitments := [Labelled(Ascii("R11"), r1s[0]), Labelled(Ascii("R21"), r2s[0]),
                        Labelled(Ascii("R12"), r1s[1]), Labelled(Ascii("R22"), r2s[1]),
                        Labelled(Ascii("R13"), r1s[2]), Labelled(Ascii("R23"), r2s[2])];
    AppendProof(t, Ascii("equality"), points, [], commitments, claim, Interleave(r1s, r2s));
    var e := DrawChallenge(c, t, claim, Interleave(r1s, r2s), before, Ascii("equality_challenge"));

    var sm, srs := RespondKeys(c, km, krs, e, amount, rs);
    proof := EqualityProof(sm, srs[0], srs[1], srs[2], r1s[0], r2s[0], r1s[1], r2s[1], r1s[2], r2s[2]);
    Prepend3(km, krs);
    Prepend3(amount % c.q, rs);
    Prepend3(sm, srs[..]);
    Interleave3(r1s, r2s);
  }

  method VerifyEquality(c: Curve, keccak: bytes -> Digest, proof: EqualityProof, pk1: Affine, pk2: Affine, pk3: Affine,
                        ct1: Ciphertext, ct2: Ciphertext, ct3: Ciphertext, transcript: Transcript?) returns (ok: bool)
    requires c.q > 0 && Usable(transcript, keccak)
    modifies transcript
    ensures var claim := EqualityClaim(c, pk1, pk2, pk3, ct1, ct2, ct3);
            && ok == Accepts(c, keccak, claim, old(StartState(transcript)), proof.View())
            && EndsIn(transcript, VerifierState(c, keccak, claim, old(StartState(transcript)),
                                                proof.View().commitments))
  {
    ghost var claim := EqualityClaim(c, pk1, pk2, pk3, ct1, ct2, ct3);
    var pks, cts := [pk1, pk2, pk3], [ct1, ct2, ct3];
    var valid := ValidateAll(c, pks, cts);
    if !valid {
      return false;
    }
    var r1s, r2s := [proof.R11, proof.R12, proof.R13], [proof.R21, proof.R22, proof.R23];
    Interleave3(r1s, r2s);

    var t := OpenTranscript(transcript, keccak);
    ghost var before := t.pending;
    var points := [Labelled(Ascii("pk1"), pk1), Labelled(Ascii("pk2"), pk2), Labelled(Ascii("pk3"), pk3),
                   Labelled(Ascii("ct1_C1"), ct1.C1), Labelled(Ascii("ct1_C2"), ct1.C2),
                   Labelled(Ascii("ct2_C1"), ct2.C1), Labelled(Ascii("ct2_C2"), ct2.C2),
                   Labelled(Ascii("ct3_C1"), ct3.C1), Labelled(Ascii("ct3_C2"), ct3.C2)];
    var commitments := [Labelled(Ascii("R11"), proof.R11), Labelled(Ascii("R21"), proof.R21),
                        Labelled(Ascii("R12"), proof.R12), Labelled(Ascii("R22"), proof.R22),
                        Labelled(Ascii("R13"), proof.R13), Labelled(Ascii("R23"), proof.R23)];
    AppendProof(t, Ascii("equality"), points, [], commitments, claim, Interleave(r1s, r2s));
    var e := DrawChallenge(c, t, claim, Interleave(r1s, r2s), before, Ascii("equality_challenge"));

    ok := CheckKeys(c, pks, cts, r1s, r2s, proof.Sm, [proof.Sr1, proof.Sr2, proof.Sr3], e);
    Prepend3(proof.Sm, [proof.Sr1, proof.Sr2, proof.Sr3]);
  }

  // ---------- two keys ----------

  function Equality2Claim(c: Curve, pk1: Affine, pk2: Affine, ct1: Ciphertext, ct2: Ciphertext): Claim
  {
    Claim(Ascii("equality2"),
          [Labelled(Ascii("pk1"), pk1), Labelled(Ascii("pk2"), pk2),
           Labelled(Ascii("ct1_C1"), ct1.C1), Labelled(Ascii("ct1_C2"), ct1.C2),
           Labelled(Ascii("ct2_C1"), ct2.C1), Labelled(Ascii("ct2_C2"), ct2.C2)],
          [],
          [Ascii("R11"), Ascii("R21"), Ascii("R12"), Ascii("R22")],
          Ascii("equality2_challenge"),
          KeyEquations(c, [pk1, pk2], [ct1, ct2]),
          true,
          AllValid(c, [pk1, pk2], [ct1, ct2]), false)
  }

  method ProveEquality2(c: Curve, keccak: bytes -> Digest, amount: uint64, r1: nat, r2: nat, pk1: Affine, pk2: Affine,
                        ct1: Ciphertext, ct2: Ciphertext, transcript: Transcript?, km: nat, kr1: nat, kr2: nat)
    returns (proof: Equality2Proof)
    requires c.q > 0 && Usable(transcript, keccak)
    modifies transcript
    ensures var claim := Equality2Claim(c, pk1, pk2, ct1, ct2);
            && AllIndexed(3, claim.equations)
            && proof.View() == HonestProof(c, keccak, claim, old(StartState(transcript)),
                                           [amount % c.q, r1, r2], [km, kr1, kr2])
            && EndsIn(transcript, StateAfter(keccak, claim, old(StartState(transcript)), proof.View().commitments))
  {
    ghost var claim := Equality2Claim(c, pk1, pk2, ct1, ct2);
    var krs, rs := [kr1, kr2], [r1, r2];
    var a1s, a2s := CommitKeys(c, km, krs, [pk1, pk2], [ct1, ct2]);
    var r1s, r2s := a1s[..], a2s[..];

    var t := OpenTranscript(transcript, keccak);
    ghost var before := t.pending;
    var points := [Labelled(Ascii("pk1"), pk1), Labelled(Ascii("pk2"), pk2),
                   Labelled(Ascii("ct1_C1"), ct1.C1), Labelled(Ascii("ct1_C2"), ct1.C2),
                   Labelled(Ascii("ct2_C1"), ct2.C1), Labelled(Ascii("ct2_C2"), ct2.C2)];
    var commitments := [Labelled(Ascii("R11"), r1s[0]), Labelled(Ascii("R21"), r2s[0]),
                        Labelled(Ascii("R12"), r1s[1]), Labelled(Ascii("R22"), r2s[1])];
    AppendProof(t, Ascii("equality2"), points, [], commitments, claim, Interleave(r1s, r2s));
    var e := DrawChallenge(c, t, claim, Interleave(r1s, r2s), before, Ascii("equality2_challenge"));

    var sm, srs := RespondKeys(c, km, krs, e, amount, rs);
    proof := Equality2Proof(sm, srs[0], srs[1], r1s[0], r2s[0], r1s[1], r2s[1]);
    Prepend2(km, krs);
    Prepend2(amount % c.q, rs);
    Prepend2(sm, srs[..]);
    Interleave2(r1s, r2s);
  }

  method VerifyEquality2(c: Curve, keccak: bytes -> Digest, proof: Equality2Proof, pk1: Affine, pk2: Affine,
                         ct1: Ciphertext, ct2: Ciphertext, transcript: Transcript?) returns (ok: bool)
    requires c.q > 0 && Usable(transcript, keccak)
    modifies transcript
    ensures var claim := Equality2Claim(c, pk1, pk2, ct1, ct2);
            && ok == Accepts(c, keccak, claim, old(StartState(transcript)), proof.View())
            && EndsIn(transcript, VerifierState(c, keccak, claim, old(StartState(transcript)),
                                                proof.View().commitments))
  {
    ghost var claim := Equality2Claim(c, pk1, pk2, ct1, ct2);
    var pks, cts := [pk1, pk2], [ct1, ct2];
    var valid := ValidateAll(c, pks, cts);
    if !valid {
      return false;
    }
    var r1s, r2s := [proof.R11, proof.R12], [proof.R21, proof.R22];
    Interleave2(r1s, r2s);

    var t := OpenTranscript(transcript, keccak);
    ghost var before := t.pending;
    var points := [Labelled(Ascii("pk1"), pk1), Labelled(Ascii("pk2"), pk2),
                   Labelled(Ascii("ct1_C1"), ct1.C1), Labelled(Ascii("ct1_C2"), ct1.C2),
                   Labelled(Ascii("ct2_C1"), ct2.C1), Labelled(Ascii("ct2_C2"), ct2.C2)];
    var commitments := [Labelled(Ascii("R11"), proof.R11), Labelled(Ascii("R21"), proof.R21),
                        Labelled(Ascii("R12"), proof.R12), Labelled(Ascii("R22"), proof.R22)];
    AppendProof(t, Ascii("equality2"), points, [], commitments, claim, Interleave(r1s, r2s));
    var e := DrawChallenge(c, t, claim, Interleave(r1s, r2s), before, Ascii("equality2_challenge"));

    ok := CheckKeys(c, pks, cts, r1s, r2s, proof.Sm, [proof.Sr1, proof.Sr2], e);
    Prepend2(proof.Sm, [proof.Sr1, proof.Sr2]);
  }

  // ---------- what an accepted proof means, for any number of keys ----------

  ghost predicate KeysOnCurve(c: Curve, pks: seq<Affine>, cts: seq<Ciphertext>)
  {
    && (forall i :: 0 <= i < |pks| ==> c.OnCurve(pks[i]))
    && (forall i :: 0 <= i < |cts| ==> c.OnCurve(cts[i].C1) && c.OnCurve(cts[i].C2))
  }

  lemma KeyEquationsFit(c: Curve, pks: seq<Affine>, cts: seq<Ciphertext>)
    requires c.Valid() && |pks| == |cts| && KeysOnCurve(c, pks, cts)
    ensures WellFormed(c, |pks| + 1, KeyEquations(c, pks, cts))
  {
    forall j | 0 <= j < 2 * |pks| ensures Fits(c, |pks| + 1, KeyEquations(c, pks, cts)[j]) {
      assert c.OnCurve(pks[j / 2]) && c.OnCurve(cts[j / 2].C1) && c.OnCurve(cts[j / 2].C2);
    }
  }

  /** Ciphertexts that encrypt m under keys on the curve solve a statement about points on the curve. */
  lemma EncryptionsFit(c: Curve, pks: seq<Affine>, cts: seq<Ciphertext>, w: seq<nat>)
    requires c.Valid() && |pks| == |cts| && |w| == |pks| + 1
    requires forall i :: 0 <= i < |pks| ==> c.OnCurve(pks[i])
    requires forall i :: 0 <= i < |pks| ==> Encrypts(c, cts[i], pks[i], w[0], w[i + 1])
    ensures WellFormed(c, |w|, KeyEquations(c, pks, cts)) && Satisfies(c, KeyEquations(c, pks, cts), w)
    ensures KeysOnCurve(c, pks, cts)
  {
    forall i | 0 <= i < |cts| ensures c.OnCurve(cts[i].C1) && c.OnCurve(cts[i].C2) {
      EncryptsIsOnCurve(c, cts[i], pks[i], w[0], w[i + 1]);
    }
    KeyEquationsFit(c, pks, cts);
    EqualityMeaning(c, pks, cts, w);
  }

  /**
   An honest three-key proof is accepted exactly when no key and no C1 is the identity, for all nonces
   and whether the keys are distinct or not.
   */
  lemma HonestEqualityAccepted(c: Curve, keccak: bytes -> Digest, state: bytes, pk1: Affine, pk2: Affine, pk3: Affine,
                               ct1: Ciphertext, ct2: Ciphertext, ct3: Ciphertext, w: seq<nat>, k: seq<nat>)
    requires c.Valid() && c.OnCurve(pk1) && c.OnCurve(pk2) && c.OnCurve(pk3) && |w| == |k| == 4
    requires Encrypts(c, ct1, pk1, w[0], w[1]) && Encrypts(c, ct2, pk2, w[0], w[2]) && Encrypts(c, ct3, pk3, w[0], w[3])
    ensures AllIndexed(4, EqualityClaim(c, pk1, pk2, pk3, ct1, ct2, ct3).equations)
    ensures var claim := EqualityClaim(c, pk1, pk2, pk3, ct1, ct2, ct3);
            Accepts(c, keccak, claim, state, HonestProof(c, keccak, claim, state, w, k))
            <==> && pk1 != INFINITY && pk2 != INFINITY && pk3 != INFINITY
                 && ct1.C1 != INFINITY && ct2.C1 != INFINITY && ct3.C1 != INFINITY
  {
    var pks, cts := [pk1, pk2, pk3], [ct1, ct2, ct3];
    EncryptionsFit(c, pks, cts, w);
    HonestAccepted(c, keccak, EqualityClaim(c, pk1, pk2, pk3, ct1, ct2, ct3), state, w, k);
    ThreeValid(c, pk1, pk2, pk3, ct1, ct2, ct3);
  }

  lemma ThreeValid(c: Curve, pk1: Affine, pk2: Affine, pk3: Affine, ct1: Ciphertext, ct2: Ciphertext, ct3: Ciphertext)
    ensures AllValid(c, [pk1, pk2, pk3], [ct1, ct2, ct3])
            <==> && ValidPublicKey(c, pk1) && ValidPublicKey(c, pk2) && ValidPublicKey(c, pk3)
                 && ValidCiphertext(c, ct1) && ValidCiphertext(c, ct2) && ValidCiphertext(c, ct3)
  {
    var pks, cts := [pk1, pk2, pk3], [ct1, ct2, ct3];
    assert pks[0] == pk1 && pks[1] == pk2 && pks[2] == pk3;
    assert cts[0] == ct1 && cts[1] == ct2 && cts[2] == ct3;
  }

  /** The same for two keys; in particular no proof about rotating to the identity key is accepted. */
  lemma HonestEquality2Accepted(c: Curve, keccak: bytes -> Digest, state: bytes, pk1: Affine, pk2: Affine,
                                ct1: Ciphertext, ct2: Ciphertext, w: seq<nat>, k: seq<nat>)
    requires c.Valid() && c.OnCurve(pk1) && c.OnCurve(pk2) && |w| == |k| == 3
    requires Encrypts(c, ct1, pk1, w[0], w[1]) && Encrypts(c, ct2, pk2, w[0], w[2])
    ensures AllIndexed(3, Equality2Claim(c, pk1, pk2, ct1, ct2).equations)
    ensures var claim := Equality2Claim(c, pk1, pk2, ct1, ct2);
            Accepts(c, keccak, claim, state, HonestProof(c, keccak, claim, state, w, k))
            <==> pk1 != INFINITY && pk2 != INFINITY && ct1.C1 != INFINITY && ct2.C1 != INFINITY
  {
    var pks, cts := [pk1, pk2], [ct1, ct2];
    EncryptionsFit(c, pks, cts, w);
    HonestAccepted(c, keccak, Equality2Claim(c, pk1, pk2, ct1, ct2), state, w, k);
    TwoValid(c, pk1, pk2, ct1, ct2);
  }

  lemma TwoValid(c: Curve, pk1: Affine, pk2: Affine, ct1: Ciphertext, ct2: Ciphertext)
    ensures AllValid(c, [pk1, pk2], [ct1, ct2])
            <==> ValidPublicKey(c, pk1) && ValidPublicKey(c, pk2) && ValidCiphertext(c, ct1) && ValidCiphertext(c, ct2)
  {
    var pks, cts := [pk1, pk2], [ct1, ct2];
    assert pks[0] == pk1 && pks[1] == pk2 && cts[0] == ct1 && cts[1] == ct2;
  }

  /** The linear statement says that every ciphertext encrypts the same m. */
  lemma EqualityMeaning(c: Curve, pks: seq<Affine>, cts: seq<Ciphertext>, x: seq<nat>)
    requires |pks| == |cts| && |x| == |pks| + 1
    ensures Satisfies(c, KeyEquations(c, pks, cts), x)
            <==> forall i :: 0 <= i < |pks| ==> Encrypts(c, cts[i], pks[i], x[0], x[i + 1])
  {
    var eqs := KeyEquations(c, pks, cts);
    if Satisfies(c, eqs, x) {
      forall i | 0 <= i < |pks| ensures Encrypts(c, cts[i], pks[i], x[0], x[i + 1]) {
        KeyRowValues(c, i, pks[i], cts[i], x);
        assert Combine(c, x, eqs[2 * i].terms) == eqs[2 * i].target;
        assert Combine(c, x, eqs[2 * i + 1].terms) == eqs[2 * i + 1].target;
      }
    }
    if forall i :: 0 <= i < |pks| ==> Encrypts(c, cts[i], pks[i], x[0], x[i + 1]) {
      forall j | 0 <= j < |eqs| ensures Indexed(|x|, eqs[j].terms) && Combine(c, x, eqs[j].terms) == eqs[j].target {
        KeyRowValues(c, j / 2, pks[j / 2], cts[j / 2], x);
        assert Encrypts(c, cts[j / 2], pks[j / 2], x[0], x[j / 2 + 1]);
      }
    }
  }

  /** Whoever holds a key, distinct from the others or not, decrypts to the shared plaintext of a solution. */
  lemma EqualPlaintexts(c: Curve, pks: seq<Affine>, cts: seq<Ciphertext>, x: seq<nat>, sks: seq<nat>)
    requires c.Valid() && |pks| == |cts| == |sks| && |x| == |pks| + 1
    requires Satisfies(c, KeyEquations(c, pks, cts), x)
    requires forall i :: 0 <= i < |pks| ==> pks[i] == c.Mul(sks[i], c.G)
    ensures forall i :: 0 <= i < |pks| ==> Unmask(c, cts[i], sks[i]) == c.Mul(x[0], c.G)
  {
    EqualityMeaning(c, pks, cts, x);
    forall i | 0 <= i < |pks| ensures Unmask(c, cts[i], sks[i]) == c.Mul(x[0], c.G) {
      UnmaskEncryption(c, cts[i], pks[i], sks[i], x[0], x[i + 1]);
    }
  }

  /**
   Two accepting transcripts with the same commitments and different challenges yield one m and
   all r_i; every key holder then decrypts to m * G, so any solver gives all of them one answer.
   */
  lemma EqualitySoundness(c: Curve, pks: seq<Affine>, cts: seq<Ciphertext>, A: seq<Affine>,
                          e1: nat, z1: seq<nat>, e2: nat, z2: seq<nat>, sks: seq<nat>, range: nat) returns (x: seq<nat>)
    requires c.Valid() && |pks| == |cts| && AllValid(c, pks, cts) && AllOnCurve(c, A)
    requires e1 < c.q && e2 < c.q && e1 != e2
    requires |z1| == |z2| == |pks| + 1 && IsScalars(c.q, z1) && IsScalars(c.q, z2)
    requires Check(c, KeyEquations(c, pks, cts), A, e1, z1) && Check(c, KeyEquations(c, pks, cts), A, e2, z2)
    requires |sks| == |pks| && forall i :: 0 <= i < |pks| ==> pks[i] == c.Mul(sks[i], c.G)
    ensures |x| == |pks| + 1 && IsScalars(c.q, x)
    ensures forall i :: 0 <= i < |pks| ==> Encrypts(c, cts[i], pks[i], x[0], x[i + 1])
    ensures forall i :: 0 <= i < |pks| ==> Unmask(c, cts[i], sks[i]) == c.Mul(x[0], c.G)
    ensures forall i, j :: 0 <= i < |pks| && 0 <= j < |pks| ==>
              Solve(c, range, Unmask(c, cts[i], sks[i])) == Solve(c, range, Unmask(c, cts[j], sks[j]))
  {
    KeyEquationsFit(c, pks, cts);
    SpecialSoundness(c, KeyEquations(c, pks, cts), A, e1, z1, e2, z2);
    x := Extract(c.q, e1, z1, e2, z2);
    EqualityMeaning(c, pks, cts, x);
    EqualPlaintexts(c, pks, cts, x, sks);
  }

  /** Encryptions of one amount always solve the statement, so their honest proofs satisfy completeness. */
  lemma EqualityHonest(c: Curve, pks: seq<Affine>, cts: seq<Ciphertext>, amount: uint64, rs: seq<nat>)
    requires c.Valid() && |pks| == |cts| == |rs| && AllValid(c, pks, cts)
    requires forall i :: 0 <= i < |pks| ==> EncryptWithRandomness(c, amount, pks[i], rs[i]) == Some(cts[i])
    ensures Satisfies(c, KeyEquations(c, pks, cts), [amount % c.q] + rs)
  {
    MulMod(c, amount, c.G);
    var x := [amount % c.q] + rs;
    forall i | 0 <= i < |pks| ensures Encrypts(c, cts[i], pks[i], x[0], x[i + 1]) {
      assert EncryptWithRandomness(c, amount, pks[i], rs[i]) == Some(cts[i]);
    }
    EqualityMeaning(c, pks, cts, x);
  }
}
