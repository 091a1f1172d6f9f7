/**
 The six protocols together: what each statement means, runs of mixed proofs over one shared
 transcript, how many digests can help a false statement, and what a hashed transcript determines.
 */
module Sessions {
  import opened Scalars
  import opened Bytes
  import opened Curves
  import opened Encoding
  import opened Transcripts
  import opened Reduction
  import opened Sigma
  import opened FiatShamir
  import opened Ciphertexts
  import opened ProofTranscripts
  import opened Dleq
  import opened Equality
  import opened ApplyPending
  import opened CommitmentEquality
  import opened Possession

  datatype Statement =
    | DleqStatement(pk: Affine, ct: Ciphertext, amount: uint64)
    | EqualityStatement(pk1: Affine, pk2: Affine, pk3: Affine, ct1: Ciphertext, ct2: Ciphertext, ct3: Ciphertext)
    | Equality2Statement(pk1: Affine, pk2: Affine, ct1: Ciphertext, ct2: Ciphertext)
    | ApplyStatement(pk: Affine, pending: Ciphertext, newCt: Ciphertext)
    | CommitmentStatement(pk: Affine, H: Affine, ct: Ciphertext, P: Affine)
    | PopStatement(pk: Affine)

  function ClaimOf(c: Curve, st: Statement): Claim
  {
    match st
    case DleqStatement(pk, ct, amount) => DleqClaim(c, pk, ct, amount)
    case EqualityStatement(pk1, pk2, pk3, ct1, ct2, ct3) => EqualityClaim(c, pk1, pk2, pk3, ct1, ct2, ct3)
    case Equality2Statement(pk1, pk2, ct1, ct2) => Equality2Claim(c, pk1, pk2, ct1, ct2)
    case ApplyStatement(pk, pending, newCt) => ApplyClaim(c, pk, pending, newCt)
    case CommitmentStatement(pk, H, ct, P) => CommitmentClaim(c, pk, H, ct, P)
    case PopStatement(pk) => PopClaim(c, pk)
  }

  /** The number of secret scalars. */
  function Arity(st: Statement): nat
  {
    match st
    case DleqStatement(_, _, _) => 1
    case EqualityStatement(_, _, _, _, _, _) => 4
    case Equality2Statement(_, _, _, _) => 3
    case ApplyStatement(_, _, _) => 3
    case CommitmentStatement(_, _, _, _) => 3
    case PopStatement(_) => 1
  }

  /** The same of the six protocols. */
  predicate SameKind(a: Statement, b: Statement)
  {
    && (a.DleqStatement? <==> b.DleqStatement?) && (a.EqualityStatement? <==> b.EqualityStatement?)
    && (a.Equality2Statement? <==> b.Equality2Statement?) && (a.ApplyStatement? <==> b.ApplyStatement?)
    && (a.CommitmentStatement? <==> b.CommitmentStatement?) && (a.PopStatement? <==> b.PopStatement?)
  }

  /** What each protocol is meant to prove, in terms of keys and plaintexts. */
  ghost predicate Witness(c: Curve, st: Statement, w: seq<nat>)
    requires |w| == Arity(st)
  {
    match st
    case DleqStatement(pk, ct, amount) => DecryptsTo(c, pk, ct, w[0], amount)
    case EqualityStatement(pk1, pk2, pk3, ct1, ct2, ct3) =>
      Encrypts(c, ct1, pk1, w[0], w[1]) && Encrypts(c, ct2, pk2, w[0], w[2]) && Encrypts(c, ct3, pk3, w[0], w[3])
    case Equality2Statement(pk1, pk2, ct1, ct2) =>
      Encrypts(c, ct1, pk1, w[0], w[1]) && Encrypts(c, ct2, pk2, w[0], w[2])
    case ApplyStatement(pk, pending, newCt) => Reencrypts(c, pk, pending, newCt, w[0], w[1], w[2])
    case CommitmentStatement(pk, H, ct, P) => Encrypts(c, ct, pk, w[0], w[1]) && Opens(c, H, P, w[0], w[2])
    case PopStatement(pk) => pk == c.Mul(w[0], c.G)
  }

  /** Every statement that passes validation is a linear statement about points on the curve. */
  lemma AdmissibleFits(c: Curve, st: Statement)
    requires c.Valid() && ClaimOf(c, st).admissible
    ensures ClaimFits(c, Arity(st), ClaimOf(c, st))
  {
    match st
    case DleqStatement(pk, ct, amount) => DleqFits(c, pk, ct, amount);
    case EqualityStatement(pk1, pk2, pk3, ct1, ct2, ct3) => KeyEquationsFit(c, [pk1, pk2, pk3], [ct1, ct2, ct3]);
    case Equality2Statement(pk1, pk2, ct1, ct2) => KeyEquationsFit(c, [pk1, pk2], [ct1, ct2]);
    case ApplyStatement(pk, pending, newCt) => ApplyFits(c, pk, pending, newCt);
    case CommitmentStatement(pk, H, ct, P) =>
    case PopStatement(pk) =>
  }

  /** Only the provers of possession and of commitment equality refuse a statement, and only for an invalid base. */
  lemma ProversRefuse(c: Curve, st: Statement)
    ensures !ClaimOf(c, st).provable <==>
            || (st.PopStatement? && (!c.OnCurve(st.pk) || st.pk == INFINITY))
            || (st.CommitmentStatement?
                && (!c.OnCurve(st.pk) || st.pk == INFINITY || !c.OnCurve(st.H) || st.H == INFINITY))
  {
  }

  /** The linear statement each verifier checks is exactly the intended one. */
  lemma WitnessIffSatisfies(c: Curve, st: Statement, w: seq<nat>)
    requires c.Valid() && ClaimOf(c, st).admissible && |w| == Arity(st)
    ensures Witness(c, st, w) <==> Satisfies(c, ClaimOf(c, st).equations, w)
  {
    match st
    case DleqStatement(pk, ct, amount) =>
      assert w == [w[0]];
      DleqMeaning(c, pk, ct, amount, w[0]);
    case EqualityStatement(pk1, pk2, pk3, ct1, ct2, ct3) =>
      ThreeKeyMeaning(c, pk1, pk2, pk3, ct1, ct2, ct3, w);
    case Equality2Statement(pk1, pk2, ct1, ct2) =>
      TwoKeyMeaning(c, pk1, pk2, ct1, ct2, w);
    case ApplyStatement(pk, pending, newCt) =>
      assert w == [w[0], w[1], w[2]];
      ApplyMeaning(c, pk, pending, newCt, w[0], w[1], w[2]);
    case CommitmentStatement(pk, H, ct, P) =>
      assert w == [w[0], w[1], w[2]];
      CommitmentMeaning(c, pk, H, ct, P, w[0], w[1], w[2]);
    case PopStatement(pk) =>
      CombineOne(c, w, Term(0, c.G));
      if Satisfies(c, PopEquations(c, pk), w) {
        assert Combine(c, w, PopEquations(c, pk)[0].terms) == PopEquations(c, pk)[0].target;
      }
  }

  lemma ThreeKeyMeaning(c: Curve, pk1: Affine, pk2: Affine, pk3: Affine, ct1: Ciphertext, ct2: Ciphertext,
                        ct3: Ciphertext, w: seq<nat>)
    requires |w| == 4
    ensures Satisfies(c, KeyEquations(c, [pk1, pk2, pk3], [ct1, ct2, ct3]), w)
            <==> Encrypts(c, ct1, pk1, w[0], w[1]) && Encrypts(c, ct2, pk2, w[0], w[2])
                 && Encrypts(c, ct3, pk3, w[0], w[3])
  {
    var pks, cts := [pk1, pk2, pk3], [ct1, ct2, ct3];
    EqualityMeaning(c, pks, cts, w);
    if forall i :: 0 <= i < |pks| ==> Encrypts(c, cts[i], pks[i], w[0], w[i + 1]) {
      assert Encrypts(c, cts[0], pks[0], w[0], w[0 + 1]);
      assert Encrypts(c, cts[1], pks[1], w[0], w[1 + 1]);
      assert Encrypts(c, cts[2], pks[2], w[0], w[2 + 1]);
    }
  }

  lemma TwoKeyMeaning(c: Curve, pk1: Affine, pk2: Affine, ct1: Ciphertext, ct2: Ciphertext, w: seq<nat>)
    requires |w| == 3
    ensures Satisfies(c, KeyEquations(c, [pk1, pk2], [ct1, ct2]), w)
            <==> Encrypts(c, ct1, pk1, w[0], w[1]) && Encrypts(c, ct2, pk2, w[0], w[2])
  {
    var pks, cts := [pk1, pk2], [ct1, ct2];
    EqualityMeaning(c, pks, cts, w);
    if forall i :: 0 <= i < |pks| ==> Encrypts(c, cts[i], pks[i], w[0], w[i + 1]) {
      assert Encrypts(c, cts[0], pks[0], w[0], w[0 + 1]);
      assert Encrypts(c, cts[1], pks[1], w[0], w[1 + 1]);
    }
  }

  /** Two accepting transcripts with the same commitments and different challenges yield a witness. */
  lemma StatementSoundness(c: Curve, st: Statement, A: seq<Affine>, e1: nat, z1: seq<nat>, e2: nat, z2: seq<nat>)
    requires c.Valid() && ClaimOf(c, st).admissible && AllOnCurve(c, A)
    requires e1 < c.q && e2 < c.q && e1 != e2
    requires |z1| == |z2| == Arity(st) && IsScalars(c.q, z1) && IsScalars(c.q, z2)
    requires Check(c, ClaimOf(c, st).equations, A, e1, z1) && Check(c, ClaimOf(c, st).equations, A, e2, z2)
    ensures Witness(c, st, Extract(c.q, e1, z1, e2, z2))
  {
    AdmissibleFits(c, st);
    SpecialSoundness(c, ClaimOf(c, st).equations, A, e1, z1, e2, z2);
    WitnessIffSatisfies(c, st, Extract(c.q, e1, z1, e2, z2));
  }

  /** The honest transcripts for a challenge are exactly those simulated from arbitrary responses. */
  lemma StatementSimulation(c: Curve, st: Statement, w: seq<nat>, A: seq<Affine>, e: nat, z: seq<nat>)
    requires c.Valid() && ClaimOf(c, st).admissible
    requires |w| == |z| == Arity(st) && IsScalars(c.q, z) && Witness(c, st, w)
    ensures AllIndexed(|z|, ClaimOf(c, st).equations)
    ensures IsHonest(c, ClaimOf(c, st).equations, w, A, e, z) <==> A == Simulate(c, ClaimOf(c, st).equations, e, z)
  {
    AdmissibleFits(c, st);
    FitsIndexed(c, |z|, ClaimOf(c, st));
    WitnessIffSatisfies(c, st, w);
    Simulation(c, ClaimOf(c, st).equations, w, A, e, z);
  }

  // ---------- runs of mixed proofs ----------

  /** One proof of the run: a statement, its secrets and the nonces drawn. */
  datatype Entry = Entry(st: Statement, secrets: seq<nat>, nonces: seq<nat>)

  function JobOf(c: Curve, entry: Entry): Job
  {
    Job(ClaimOf(c, entry.st), entry.secrets, entry.nonces)
  }

  /** The statement is true and not degenerate, and no commitment is the identity where that is checked. */
  ghost predicate HonestEntry(c: Curve, entry: Entry)
  {
    && ClaimOf(c, entry.st).admissible
    && |entry.secrets| == |entry.nonces| == Arity(entry.st)
    && Witness(c, entry.st, entry.secrets)
    && AllIndexed(Arity(entry.st), ClaimOf(c, entry.st).equations)
    && (ClaimOf(c, entry.st).strict ==> INFINITY !in Commit(c, ClaimOf(c, entry.st).equations, entry.nonces))
  }

  lemma HonestEntryAdmitted(c: Curve, entry: Entry)
    requires c.Valid() && HonestEntry(c, entry)
    ensures TrueJob(c, JobOf(c, entry)) && AdmittedJob(c, JobOf(c, entry))
  {
    var claim := ClaimOf(c, entry.st);
    AdmissibleFits(c, entry.st);
    WitnessIffSatisfies(c, entry.st, entry.secrets);
    var A := Commit(c, claim.equations, entry.nonces);
    forall i | 0 <= i < |A| ensures c.OnCurve(A[i]) {
      assert Fits(c, Arity(entry.st), claim.equations[i]);
      CombineClosed(c, entry.nonces, claim.equations[i].terms);
    }
  }

  function JobsOf(c: Curve, entries: seq<Entry>): (jobs: seq<Job>)
    ensures |jobs| == |entries|
  {
    seq(|entries|, i requires 0 <= i < |entries| => JobOf(c, entries[i]))
  }

  /**
   Any sequence of honest proofs of the six kinds, made in order on one transcript, is accepted in
   that order on a transcript that started equal, and the two stay equal after every proof.
   */
  lemma MixedRunLockstep(c: Curve, keccak: bytes -> Digest, entries: seq<Entry>, state: bytes)
    requires c.Valid() && forall i :: 0 <= i < |entries| ==> HonestEntry(c, entries[i])
    ensures TrueJobs(c, JobsOf(c, entries))
    ensures var proved := ProveRun(c, keccak, JobsOf(c, entries), state);
            var verified := VerifyRun(c, keccak, JobsOf(c, entries), proved, state);
            forall i :: 0 <= i < |entries| ==> verified[i].0 && verified[i].1 == proved[i].1
  {
    var jobs := JobsOf(c, entries);
    forall i | 0 <= i < |jobs| ensures TrueJob(c, jobs[i]) && AdmittedJob(c, jobs[i]) {
      HonestEntryAdmitted(c, entries[i]);
    }
    Lockstep(c, keccak, jobs, state);
  }

  // ---------- false statements ----------

  ghost predicate Holds(c: Curve, st: Statement)
  {
    exists w: seq<nat> :: |w| == Arity(st) && IsScalars(c.q, w) && Witness(c, st, w)
  }

  /**
   Of the 2^256 digests, at most six lead to a challenge for which a false statement's verification
   equations can be met, whatever commitments were absorbed.
   */
  lemma FalseStatementAtMostSix(c: Curve, st: Statement, A: seq<Affine>)
    requires c.Valid() && c.q == BN254_ORDER && ClaimOf(c, st).admissible && AllOnCurve(c, A)
    requires !Holds(c, st)
    ensures |AnswerableDigests(c, Arity(st), ClaimOf(c, st).equations, A)| <= 6
  {
    var eqs := ClaimOf(c, st).equations;
    AdmissibleFits(c, st);
    if HasSolution(c, Arity(st), eqs) {
      var w: seq<nat> :| |w| == Arity(st) && IsScalars(c.q, w) && Satisfies(c, eqs, w);
      WitnessIffSatisfies(c, st, w);
      assert false;
    }
    FalseStatementDigests(c, Arity(st), eqs, A);
  }

  /** Whenever the verifier of any of the six accepts, the digest it drew is among those counted for its statement. */
  lemma AcceptedDigestCounted(c: Curve, keccak: bytes -> Digest, st: Statement, state: bytes, pf: Proof)
    requires c.q > 0 && |ClaimOf(c, st).commitmentTags| == |pf.commitments|
    requires |pf.responses| == Arity(st) && IsScalars(c.q, pf.responses)
    requires Accepts(c, keccak, ClaimOf(c, st), state, pf)
    ensures var claim := ClaimOf(c, st);
            FromBigEndian(Apply(keccak, HashInput(state, Items(claim, pf.commitments), claim.challengeTag)))
            in AnswerableDigests(c, Arity(st), claim.equations, pf.commitments)
  {
    AcceptedDigestIsAnswerable(c, keccak, Arity(st), ClaimOf(c, st), state, pf);
  }

  /** Possession and commitment equality have no false statements, so the bound says nothing about them. */
  lemma AlwaysTrueStatements(c: Curve, st: Statement)
    requires c.Valid() && ClaimOf(c, st).admissible && (st.PopStatement? || st.CommitmentStatement?)
    ensures Holds(c, st)
  {
    match st
    case PopStatement(pk) =>
      var w := [Log(c, c.G, pk)];
      assert Witness(c, st, w);
    case CommitmentStatement(pk, H, ct, P) =>
      var r := Log(c, c.G, ct.C1);
      MulClosed(c, r, pk);
      MinusIff(c, ct.C2, c.Mul(r, pk), INFINITY);
      var v := Log(c, c.G, c.Minus(ct.C2, c.Mul(r, pk)));
      MulClosed(c, v, c.G);
      MinusIff(c, ct.C2, c.Mul(r, pk), c.Mul(v, c.G));
      MinusIff(c, P, c.Mul(v, c.G), INFINITY);
      var s := Log(c, H, c.Minus(P, c.Mul(v, c.G)));
      MinusIff(c, P, c.Mul(v, c.G), c.Mul(s, H));
      PlusCommutes(c, c.Mul(v, c.G), c.Mul(s, H));
      assert Witness(c, st, [v, r, s]);
  }

  // ---------- what a hashed transcript determines ----------

  ghost predicate StatementReduced(c: Curve, st: Statement, A: seq<Affine>)
    requires |ClaimOf(c, st).commitmentTags| == |A|
  {
    AllReduced(c, ClaimOf(c, st).points) && AllReduced(c, Label(ClaimOf(c, st).commitmentTags, A))
  }

  /** The labels a claim uses, other than statement data. */
  function Tags(claim: Claim): seq<bytes>
  {
    [claim.proofType, claim.challengeTag]
    + seq(|claim.points|, i requires 0 <= i < |claim.points| => claim.points[i].tag)
    + claim.commitmentTags
  }

  lemma ShortTags(claim: Claim)
    requires forall i :: 0 <= i < |Tags(claim)| ==> |Tags(claim)[i]| < 256
    requires claim.extra == [] || (|claim.extra| == 1 && |claim.extra[0].tag| < 256 && |claim.extra[0].data| < 256)
    ensures ShortClaim(claim)
  {
    assert 256 < Pow256(4);
    var t, n := Tags(claim), |claim.points|;
    assert t[0] == claim.proofType && t[1] == claim.challengeTag;
    forall l | l in claim.points ensures Short(l.tag) {
      var i :| 0 <= i < n && claim.points[i] == l;
      assert t[2 + i] == l.tag;
    }
    forall u | u in claim.commitmentTags ensures Short(u) {
      var i :| 0 <= i < |claim.commitmentTags| && claim.commitmentTags[i] == u;
      assert t[2 + n + i] == u;
    }
  }

  lemma StatementIsShort(c: Curve, st: Statement)
    ensures ShortClaim(ClaimOf(c, st))
  {
    ShortTags(ClaimOf(c, st));
  }

  /**
   The bytes hashed by proofs of two kinds never coincide, whatever the caller contexts: equal
   bytes mean the same kind of proof.
   */
  lemma HashedKind(c: Curve, domain1: bytes, context1: seq<Item>, st1: Statement, A1: seq<Affine>,
                   domain2: bytes, context2: seq<Item>, st2: Statement, A2: seq<Affine>)
    requires Short(domain1) && ShortItems(context1) && |ClaimOf(c, st1).commitmentTags| == |A1|
    requires Short(domain2) && ShortItems(context2) && |ClaimOf(c, st2).commitmentTags| == |A2|
    requires Hashed(domain1, context1, ClaimOf(c, st1), A1) == Hashed(domain2, context2, ClaimOf(c, st2), A2)
    ensures domain1 == domain2
    ensures SameKind(st1, st2)
  {
    StatementIsShort(c, st1);
    StatementIsShort(c, st2);
    HashedDetermines(domain1, context1, ClaimOf(c, st1), A1, domain2, context2, ClaimOf(c, st2), A2);
    ChallengeLabelIsKind(c, st1, st2);
  }

  /** In one caller context, equal hashed bytes force the same statement and the same commitments. */
  lemma HashedStatement(c: Curve, domain: bytes, context: seq<Item>,
                        st1: Statement, A1: seq<Affine>, st2: Statement, A2: seq<Affine>)
    requires FitsWire(c) && Short(domain) && ShortItems(context)
    requires |ClaimOf(c, st1).commitmentTags| == |A1| && StatementReduced(c, st1, A1)
    requires |ClaimOf(c, st2).commitmentTags| == |A2| && StatementReduced(c, st2, A2)
    requires Hashed(domain, context, ClaimOf(c, st1), A1) == Hashed(domain, context, ClaimOf(c, st2), A2)
    ensures st1 == st2 && A1 == A2
  {
    HashedKind(c, domain, context, st1, A1, domain, context, st2, A2);
    StatementIsShort(c, st1);
    StatementIsShort(c, st2);
    HashedBinds(c, domain, context, ClaimOf(c, st1), A1, ClaimOf(c, st2), A2);
    PointsDetermineStatement(c, st1, st2);
  }

  lemma EqualityPointsDetermine(c: Curve, st1: Statement, st2: Statement)
    requires (st1.EqualityStatement? && st2.EqualityStatement?) || (st1.Equality2Statement? && st2.Equality2Statement?)
    requires ClaimOf(c, st1).points == ClaimOf(c, st2).points
    ensures st1 == st2
  {
    var p1, p2 := ClaimOf(c, st1).points, ClaimOf(c, st2).points;
    assert forall i :: 0 <= i < |p1| ==> p1[i].point == p2[i].point;
  }

  lemma DleqPointsDetermine(c: Curve, st1: Statement, st2: Statement)
    requires st1.DleqStatement? && st2.DleqStatement?
    requires ClaimOf(c, st1).points == ClaimOf(c, st2).points && ClaimOf(c, st1).extra == ClaimOf(c, st2).extra
    ensures st1 == st2
  {
    var p1, p2 := ClaimOf(c, st1).points, ClaimOf(c, st2).points;
    assert forall i :: 0 <= i < |p1| ==> p1[i].point == p2[i].point;
    assert ClaimOf(c, st1).extra[0] == ClaimOf(c, st2).extra[0];
    Pow256Values();
    LittleEndianInjective(st1.amount, st2.amount, 8);
  }

  lemma OtherPointsDetermine(c: Curve, st1: Statement, st2: Statement)
    requires (st1.ApplyStatement? && st2.ApplyStatement?) || (st1.CommitmentStatement? && st2.CommitmentStatement?)
          || (st1.PopStatement? && st2.PopStatement?)
    requires ClaimOf(c, st1).points == ClaimOf(c, st2).points
    ensures st1 == st2
  {
    var p1, p2 := ClaimOf(c, st1).points, ClaimOf(c, st2).points;
    assert forall i :: 0 <= i < |p1| ==> p1[i].point == p2[i].point;
  }

  lemma ChallengeLabelIsKind(c: Curve, st1: Statement, st2: Statement)
    requires |ClaimOf(c, st1).challengeTag| == |ClaimOf(c, st2).challengeTag|
    ensures SameKind(st1, st2)
  {
  }

  lemma PointsDetermineStatement(c: Curve, st1: Statement, st2: Statement)
    requires SameKind(st1, st2)
    requires ClaimOf(c, st1).points == ClaimOf(c, st2).points && ClaimOf(c, st1).extra == ClaimOf(c, st2).extra
    ensures st1 == st2
  {
    if st1.DleqStatement? {
      DleqPointsDetermine(c, st1, st2);
    } else if st1.EqualityStatement? || st1.Equality2Statement? {
      EqualityPointsDetermine(c, st1, st2);
    } else {
      OtherPointsDetermine(c, st1, st2);
    }
  }
}
