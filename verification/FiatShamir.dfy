/**
 What the six prove/verify pairs have in common: a linear statement, the items absorbed into the
 transcript, and the checks made before anything is absorbed. Each pair is proved to compute
 HonestProof and Accepts for its own Claim; the theorems here are about every Claim.
 */
module FiatShamir {
  import opened Scalars
  import opened Bytes
  import opened Curves
  import opened Encoding
  import opened Transcripts
  import opened Reduction
  import opened Sigma

  /** A point absorbed under a label. */
  datatype Labelled = Labelled(tag: bytes, point: Affine)

  datatype Claim = Claim(
    proofType: bytes,
    points: seq<Labelled>,         // keys, ciphertexts and commitments of the statement
    extra: seq<Item>,              // further statement data
    commitmentTags: seq<bytes>,
    challengeTag: bytes,
    equations: seq<Equation>,
    provable: bool,                // the prover does not refuse the statement with an error
    admissible: bool,              // the statement passes the verifier's input validation
    strict: bool)                  // the verifier also rejects off-curve and identity commitments

  datatype Proof = Proof(commitments: seq<Affine>, responses: seq<nat>)

  ghost predicate ClaimFits(c: Curve, arity: nat, claim: Claim)
  {
    |claim.commitmentTags| == |claim.equations| && WellFormed(c, arity, claim.equations)
  }

  function PointItems(points: seq<Labelled>): (items: seq<Item>)
    ensures |items| == |points|
  {
    seq(|points|, i requires 0 <= i < |points| => Item(points[i].tag, MarshalPoint(points[i].point)))
  }

  function Label(tags: seq<bytes>, A: seq<Affine>): (points: seq<Labelled>)
    requires |tags| == |A|
    ensures |points| == |A|
  {
    seq(|A|, i requires 0 <= i < |A| => Labelled(tags[i], A[i]))
  }

  /** Everything one proof absorbs before its challenge, in order. */
  function Items(claim: Claim, A: seq<Affine>): seq<Item>
    requires |claim.commitmentTags| == |A|
  {
    [Item(Ascii("proof_type"), claim.proofType)] + PointItems(claim.points) + claim.extra
    + PointItems(Label(claim.commitmentTags, A))
  }

  function ChallengeFor(c: Curve, keccak: bytes -> Digest, claim: Claim, state: bytes, A: seq<Affine>): (e: nat)
    requires c.q > 0 && |claim.commitmentTags| == |A|
    ensures e < c.q
  {
    Challenge(keccak, c.q, state, Items(claim, A), claim.challengeTag)
  }

  function StateAfter(keccak: bytes -> Digest, claim: Claim, state: bytes, A: seq<Affine>): bytes
    requires |claim.commitmentTags| == |A|
  {
    AfterChallenge(keccak, state, Items(claim, A), claim.challengeTag)
  }

  /** The verifier reaches the transcript. */
  predicate Admitted(c: Curve, claim: Claim, A: seq<Affine>)
  {
    && claim.admissible
    && (claim.strict ==> forall i :: 0 <= i < |A| ==> ProperPoint(c, A[i]))
  }

  predicate Accepts(c: Curve, keccak: bytes -> Digest, claim: Claim, state: bytes, proof: Proof)
    requires c.q > 0 && |claim.commitmentTags| == |proof.commitments|
  {
    && Admitted(c, claim, proof.commitments)
    && Check(c, claim.equations, proof.commitments,
             ChallengeFor(c, keccak, claim, state, proof.commitments), proof.responses)
  }

  /** The verifier's transcript afterwards: untouched when validation fails. */
  function VerifierState(c: Curve, keccak: bytes -> Digest, claim: Claim, state: bytes, A: seq<Affine>): bytes
    requires |claim.commitmentTags| == |A|
  {
    if Admitted(c, claim, A) then StateAfter(keccak, claim, state, A) else state
  }

  /** The proof computed from witness w and nonces k. */
  function HonestProof(c: Curve, keccak: bytes -> Digest, claim: Claim, state: bytes, w: seq<nat>, k: seq<nat>)
    : (pf: Proof)
    requires c.q > 0 && |w| == |k| && AllIndexed(|k|, claim.equations)
    requires |claim.commitmentTags| == |claim.equations|
    ensures |pf.commitments| == |claim.equations|
  {
    var A := Commit(c, claim.equations, k);
    Proof(A, Respond(c.q, k, ChallengeFor(c, keccak, claim, state, A), w))
  }

  lemma FitsIndexed(c: Curve, arity: nat, claim: Claim)
    requires ClaimFits(c, arity, claim)
    ensures AllIndexed(arity, claim.equations)
  {
    forall i | 0 <= i < |claim.equations| ensures Indexed(arity, claim.equations[i].terms) {
      assert Fits(c, arity, claim.equations[i]);
    }
  }

  /** An honest proof of a true statement is accepted exactly when it passes the verifier's validation. */
  lemma HonestAccepted(c: Curve, keccak: bytes -> Digest, claim: Claim, state: bytes, w: seq<nat>, k: seq<nat>)
    requires c.Valid() && ClaimFits(c, |w|, claim) && |k| == |w| && Satisfies(c, claim.equations, w)
    ensures AllIndexed(|k|, claim.equations)
    ensures Accepts(c, keccak, claim, state, HonestProof(c, keccak, claim, state, w, k))
            <==> Admitted(c, claim, Commit(c, claim.equations, k))
  {
    FitsIndexed(c, |w|, claim);
    var A := Commit(c, claim.equations, k);
    Completeness(c, claim.equations, w, k, ChallengeFor(c, keccak, claim, state, A));
  }

  // ---------- runs over a shared transcript ----------

  /** One honest proof to make: a true claim, the secrets that solve it and the nonces drawn. */
  datatype Job = Job(claim: Claim, secrets: seq<nat>, nonces: seq<nat>)

  ghost predicate TrueJob(c: Curve, job: Job)
  {
    && |job.secrets| == |job.nonces|
    && ClaimFits(c, |job.secrets|, job.claim)
    && AllIndexed(|job.nonces|, job.claim.equations)
    && Satisfies(c, job.claim.equations, job.secrets)
  }

  ghost predicate TrueJobs(c: Curve, jobs: seq<Job>)
  {
    forall i :: 0 <= i < |jobs| ==> TrueJob(c, jobs[i])
  }

  /** The prover makes the proof, and the verifier does not turn it away before the transcript. */
  ghost predicate AdmittedJob(c: Curve, job: Job)
    requires TrueJob(c, job)
  {
    job.claim.provable && Admitted(c, job.claim, Commit(c, job.claim.equations, job.nonces))
  }

  /** The prover's outcome: a proof and the transcript after it, or an error and the transcript untouched. */
  ghost function ProveOne(c: Curve, keccak: bytes -> Digest, job: Job, state: bytes): (r: (Option<Proof>, bytes))
    requires c.q > 0 && TrueJob(c, job)
    ensures r.0.Some? ==> |r.0.value.commitments| == |job.claim.commitmentTags|
  {
    if !job.claim.provable then (None, state)
    else
      var pf := HonestProof(c, keccak, job.claim, state, job.secrets, job.nonces);
      (Some(pf), StateAfter(keccak, job.claim, state, pf.commitments))
  }

  /** The verifier's outcome: the verdict and the transcript after it. A proof that was not made is not verified. */
  ghost function VerifyOne(c: Curve, keccak: bytes -> Digest, claim: Claim, proof: Option<Proof>, state: bytes)
    : (bool, bytes)
    requires c.q > 0 && (proof.Some? ==> |proof.value.commitments| == |claim.commitmentTags|)
  {
    if proof.None? then (false, state)
    else
      var pf := proof.value;
      (Accepts(c, keccak, claim, state, pf), VerifierState(c, keccak, claim, state, pf.commitments))
  }

  /** The proofs made in order on one transcript, each with the prover's state after it. */
  ghost function ProveRun(c: Curve, keccak: bytes -> Digest, jobs: seq<Job>, state: bytes)
    : (run: seq<(Option<Proof>, bytes)>)
    requires c.q > 0 && TrueJobs(c, jobs)
    ensures |run| == |jobs|
    ensures forall i :: 0 <= i < |run| && run[i].0.Some? ==>
              |run[i].0.value.commitments| == |jobs[i].claim.commitmentTags|
  {
    if jobs == [] then []
    else
      assert TrueJob(c, jobs[0]);
      var first := ProveOne(c, keccak, jobs[0], state);
      [first] + ProveRun(c, keccak, jobs[1..], first.1)
  }

  /** The verdicts on those proofs, given in order on another transcript, each with the verifier's state after it. */
  ghost function VerifyRun(c: Curve, keccak: bytes -> Digest, jobs: seq<Job>, proofs: seq<(Option<Proof>, bytes)>,
                           state: bytes)
    : (run: seq<(bool, bytes)>)
    requires c.q > 0 && |jobs| == |proofs|
    requires forall i :: 0 <= i < |jobs| && proofs[i].0.Some? ==>
               |proofs[i].0.value.commitments| == |jobs[i].claim.commitmentTags|
    ensures |run| == |jobs|
  {
    if jobs == [] then []
    else
      var first := VerifyOne(c, keccak, jobs[0].claim, proofs[0].0, state);
      [first] + VerifyRun(c, keccak, jobs[1..], proofs[1..], first.1)
  }

  /**
   Any sequence of honest, admissible proofs made in order on one transcript is accepted in that
   order, and the two parties' transcripts agree after every step, digests included.
   */
  lemma {:induction false} Lockstep(c: Curve, keccak: bytes -> Digest, jobs: seq<Job>, state: bytes)
    requires c.Valid() && TrueJobs(c, jobs)
    requires forall i :: 0 <= i < |jobs| ==> AdmittedJob(c, jobs[i])
    ensures var proved := ProveRun(c, keccak, jobs, state);
            var verified := VerifyRun(c, keccak, jobs, proved, state);
            forall i :: 0 <= i < |jobs| ==> verified[i].0 && verified[i].1 == proved[i].1
  {
    if jobs != [] {
      var job := jobs[0];
      assert TrueJob(c, job) && AdmittedJob(c, job);
      HonestAccepted(c, keccak, job.claim, state, job.secrets, job.nonces);
      var first := ProveOne(c, keccak, job, state);
      Lockstep(c, keccak, jobs[1..], first.1);
      var proved := ProveRun(c, keccak, jobs, state);
      assert proved[0] == first && proved[1..] == ProveRun(c, keccak, jobs[1..], first.1);
      var verified := VerifyRun(c, keccak, jobs, proved, state);
      assert verified[1..] == VerifyRun(c, keccak, jobs[1..], proved[1..], first.1);
      forall i | 0 <= i < |jobs| ensures verified[i].0 && verified[i].1 == proved[i].1 {
        if i > 0 {
          assert verified[i] == verified[1..][i - 1] && proved[i] == proved[1..][i - 1];
        }
      }
    }
  }

  /** Whatever state the verifier starts in, a proof it accepts was made and admissible. */
  lemma {:induction false} AcceptedIsAdmitted(c: Curve, keccak: bytes -> Digest, jobs: seq<Job>,
                                                proverState: bytes, verifierState: bytes)
    requires c.Valid() && TrueJobs(c, jobs)
    ensures var verified := VerifyRun(c, keccak, jobs, ProveRun(c, keccak, jobs, proverState), verifierState);
            forall i :: 0 <= i < |jobs| && verified[i].0 ==> AdmittedJob(c, jobs[i])
  {
    if jobs != [] {
      var job := jobs[0];
      assert TrueJob(c, job);
      var first := ProveOne(c, keccak, job, proverState);
      var after := VerifyOne(c, keccak, job.claim, first.0, verifierState).1;
      AcceptedIsAdmitted(c, keccak, jobs[1..], first.1, after);
      var proved := ProveRun(c, keccak, jobs, proverState);
      assert proved[0] == first && proved[1..] == ProveRun(c, keccak, jobs[1..], first.1);
      var verified := VerifyRun(c, keccak, jobs, proved, verifierState);
      assert verified[1..] == VerifyRun(c, keccak, jobs[1..], proved[1..], after);
      forall i | 0 <= i < |jobs| && verified[i].0 ensures AdmittedJob(c, jobs[i]) {
        if i > 0 {
          assert verified[i] == verified[1..][i - 1] && jobs[i] == jobs[1..][i - 1];
        }
      }
    }
  }

  /** A run of honest proofs is accepted throughout, in lockstep, exactly when every one of them is admissible. */
  lemma LockstepIff(c: Curve, keccak: bytes -> Digest, jobs: seq<Job>, state: bytes)
    requires c.Valid() && TrueJobs(c, jobs)
    ensures var proved := ProveRun(c, keccak, jobs, state);
            var verified := VerifyRun(c, keccak, jobs, proved, state);
            (forall i :: 0 <= i < |jobs| ==> verified[i].0 && verified[i].1 == proved[i].1)
            <==> (forall i :: 0 <= i < |jobs| ==> AdmittedJob(c, jobs[i]))
  {
    AcceptedIsAdmitted(c, keccak, jobs, state, state);
    if forall i :: 0 <= i < |jobs| ==> AdmittedJob(c, jobs[i]) {
      Lockstep(c, keccak, jobs, state);
    }
  }

  // ---------- soundness counted in digests ----------

  /** The digests whose challenge can be answered for the given commitments. */
  ghost function AnswerableDigests(c: Curve, arity: nat, eqs: seq<Equation>, A: seq<Affine>): set<nat>
    requires c.q > 0
  {
    set h: nat | h < DIGESTS && Answerable(c, arity, eqs, A, h % c.q)
  }

  /** For a false statement, whatever the commitments, at most DIGESTS / q + 1 digests can be answered. */
  lemma FalseStatementDigests(c: Curve, arity: nat, eqs: seq<Equation>, A: seq<Affine>)
    requires c.Valid() && WellFormed(c, arity, eqs) && AllOnCurve(c, A)
    requires !HasSolution(c, arity, eqs)
    ensures |AnswerableDigests(c, arity, eqs, A)| <= DIGESTS / c.q + 1
    ensures c.q == BN254_ORDER ==> |AnswerableDigests(c, arity, eqs, A)| <= 6
  {
    var S := AnswerableDigests(c, arity, eqs, A);
    if S != {} {
      var h :| h in S;
      var e := h % c.q;
      forall h' | h' in S ensures h' in Hits(DIGESTS, c.q, e) {
        FalseStatementOneChallenge(c, arity, eqs, A, e, h' % c.q);
      }
      SubsetSize(S, Hits(DIGESTS, c.q, e));
      HitCount(DIGESTS, c.q, e);
      if c.q == BN254_ORDER {
        ChallengeBias(e);
      }
    }
  }

  /**
   What the count means for a verifier: whenever it accepts, with any hash function and from any
   transcript, the digest it drew its challenge from is one of those counted.
   */
  lemma AcceptedDigestIsAnswerable(c: Curve, keccak: bytes -> Digest, arity: nat, claim: Claim, state: bytes, pf: Proof)
    requires c.q > 0 && |claim.commitmentTags| == |pf.commitments|
    requires |pf.responses| == arity && IsScalars(c.q, pf.responses)
    requires Accepts(c, keccak, claim, state, pf)
    ensures FromBigEndian(Apply(keccak, HashInput(state, Items(claim, pf.commitments), claim.challengeTag)))
            in AnswerableDigests(c, arity, claim.equations, pf.commitments)
  {
    var digest := Apply(keccak, HashInput(state, Items(claim, pf.commitments), claim.challengeTag));
    FromBigEndianBound(digest);
    Pow256Values();
    assert Check(c, claim.equations, pf.commitments, FromBigEndian(digest) % c.q, pf.responses);
  }

  lemma {:induction false} SubsetSize(a: set<nat>, b: set<nat>)
    requires a <= b
    ensures |a| <= |b|
  {
    if a != {} {
      var x :| x in a;
      SubsetSize(a - {x}, b - {x});
    }
  }

  // ---------- what the hashed bytes determine ----------

  ghost predicate ShortClaim(claim: Claim)
  {
    && Short(claim.proofType) && Short(claim.challengeTag) && ShortItems(claim.extra)
    && (forall l :: l in claim.points ==> Short(l.tag))
    && (forall t :: t in claim.commitmentTags ==> Short(t))
  }

  lemma ItemsAreShort(claim: Claim, A: seq<Affine>)
    requires ShortClaim(claim) && |claim.commitmentTags| == |A|
    ensures ShortItems(Items(claim, A))
  {
    Pow256Values();
    forall item | item in Items(claim, A) ensures Short(item.tag) && Short(item.data) {
      if item in PointItems(claim.points) {
        var i :| 0 <= i < |claim.points| && item == PointItems(claim.points)[i];
        assert claim.points[i] in claim.points;
      } else if item in PointItems(Label(claim.commitmentTags, A)) {
        var i :| 0 <= i < |A| && item == PointItems(Label(claim.commitmentTags, A))[i];
        assert claim.commitmentTags[i] in claim.commitmentTags;
      }
    }
  }

  /** The bytes hashed by a proof in a caller context of a domain and appended items. */
  function Hashed(domain: bytes, context: seq<Item>, claim: Claim, A: seq<Affine>): bytes
    requires |claim.commitmentTags| == |A|
  {
    HashInput(Frame(domain) + EncodeItems(context), Items(claim, A), claim.challengeTag)
  }

  /** Equal hashed bytes mean the same domain, absorbed items and challenge label. */
  lemma HashedDetermines(domain1: bytes, context1: seq<Item>, claim1: Claim, A1: seq<Affine>,
                         domain2: bytes, context2: seq<Item>, claim2: Claim, A2: seq<Affine>)
    requires Short(domain1) && ShortItems(context1) && ShortClaim(claim1) && |claim1.commitmentTags| == |A1|
    requires Short(domain2) && ShortItems(context2) && ShortClaim(claim2) && |claim2.commitmentTags| == |A2|
    requires Hashed(domain1, context1, claim1, A1) == Hashed(domain2, context2, claim2, A2)
    ensures domain1 == domain2 && claim1.challengeTag == claim2.challengeTag
    ensures context1 + Items(claim1, A1) == context2 + Items(claim2, A2)
  {
    ItemsAreShort(claim1, A1);
    ItemsAreShort(claim2, A2);
    HashInputSplits(Frame(domain1), context1, Items(claim1, A1), claim1.challengeTag);
    HashInputSplits(Frame(domain2), context2, Items(claim2, A2), claim2.challengeTag);
    HashInputInjective(domain1, context1 + Items(claim1, A1), claim1.challengeTag,
                       domain2, context2 + Items(claim2, A2), claim2.challengeTag);
  }

  /** Two claims of the same proof type. */
  predicate SameShape(a: Claim, b: Claim)
  {
    |a.points| == |b.points| && |a.extra| == |b.extra| && a.commitmentTags == b.commitmentTags
  }

  ghost predicate AllReduced(c: Curve, points: seq<Labelled>)
  {
    forall i :: 0 <= i < |points| ==> Reduced(c, points[i].point)
  }

  lemma PointItemsInjective(c: Curve, a: seq<Labelled>, b: seq<Labelled>)
    requires FitsWire(c) && AllReduced(c, a) && AllReduced(c, b) && PointItems(a) == PointItems(b)
    ensures a == b
  {
    forall i | 0 <= i < |a| ensures a[i] == b[i] {
      assert PointItems(a)[i] == PointItems(b)[i];
      MarshalPointInjective(c, a[i].point, b[i].point);
    }
  }

  lemma AppendCancels(s: seq<Item>, t: seq<Item>, u: seq<Item>)
    requires s + t == s + u
    ensures t == u
  {
    assert t == (s + t)[|s|..] == (s + u)[|s|..] == u;
  }

  lemma PartsEqual(h: seq<Item>, p: seq<Item>, x: seq<Item>, k: seq<Item>,
                   h': seq<Item>, p': seq<Item>, x': seq<Item>, k': seq<Item>)
    requires |h| == |h'| && |p| == |p'| && |x| == |x'|
    requires h + p + x + k == h' + p' + x' + k'
    ensures p == p' && x == x' && k == k'
  {
    var s, n, m := h + p + x + k, |h| + |p|, |h| + |p| + |x|;
    assert p == s[|h|..n] == p' && x == s[n..m] == x' && k == s[m..] == k';
  }

  /** Equal absorbed items of one proof type have equal statement points, data and commitments. */
  lemma ItemsBind(c: Curve, a: Claim, A: seq<Affine>, b: Claim, B: seq<Affine>)
    requires FitsWire(c) && |a.points| == |b.points| && |a.extra| == |b.extra| && a.commitmentTags == b.commitmentTags
    requires |a.commitmentTags| == |A| == |B|
    requires AllReduced(c, a.points) && AllReduced(c, Label(a.commitmentTags, A))
    requires AllReduced(c, b.points) && AllReduced(c, Label(b.commitmentTags, B))
    requires Items(a, A) == Items(b, B)
    ensures a.points == b.points && a.extra == b.extra && A == B
  {
    PartsEqual([Item(Ascii("proof_type"), a.proofType)], PointItems(a.points), a.extra,
               PointItems(Label(a.commitmentTags, A)),
               [Item(Ascii("proof_type"), b.proofType)], PointItems(b.points), b.extra,
               PointItems(Label(b.commitmentTags, B)));
    PointItemsInjective(c, a.points, b.points);
    PointItemsInjective(c, Label(a.commitmentTags, A), Label(b.commitmentTags, B));
    forall i | 0 <= i < |A| ensures A[i] == B[i] {
      assert Label(a.commitmentTags, A)[i] == Label(b.commitmentTags, B)[i];
    }
  }

  /** Within one proof type and context, equal hashed bytes force the same statement points, data and commitments. */
  lemma HashedBinds(c: Curve, domain: bytes, context: seq<Item>, a: Claim, A: seq<Affine>, b: Claim, B: seq<Affine>)
    requires FitsWire(c) && Short(domain) && ShortItems(context) && SameShape(a, b)
    requires ShortClaim(a) && |a.commitmentTags| == |A| && ShortClaim(b) && |b.commitmentTags| == |B|
    requires AllReduced(c, a.points) && AllReduced(c, Label(a.commitmentTags, A))
    requires AllReduced(c, b.points) && AllReduced(c, Label(b.commitmentTags, B))
    requires Hashed(domain, context, a, A) == Hashed(domain, context, b, B)
    ensures a.points == b.points && a.extra == b.extra && A == B
  {
    HashedDetermines(domain, context, a, A, domain, context, b, B);
    AppendCancels(context, Items(a, A), Items(b, B));
    ItemsBind(c, a, A, b, B);
  }
}
