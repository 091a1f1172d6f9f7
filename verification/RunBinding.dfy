/**
 Binding over whole runs. Two runs that make the same kinds of proof in the same order, from any
 starting transcripts, write the same number of bytes at every step, so the digests folded in sit at
 the same positions; equal bytes hashed at any step then force everything before to be equal.
 */
module RunBinding {
  import opened Bytes
  import opened Curves
  import opened Encoding
  import opened Transcripts
  import opened FiatShamir
  import opened Sessions

  /** What one proof of a run absorbs. */
  datatype Step = Step(claim: Claim, commitments: seq<Affine>)

  ghost predicate StepFits(c: Curve, step: Step)
  {
    && |step.claim.commitmentTags| == |step.commitments| && ShortClaim(step.claim)
    && AllReduced(c, step.claim.points) && AllReduced(c, Label(step.claim.commitmentTags, step.commitments))
  }

  ghost predicate RunFits(c: Curve, run: seq<Step>)
  {
    forall i :: 0 <= i < |run| ==> StepFits(c, run[i])
  }

  /** The bytes hashed for the challenge of a step. */
  ghost function StepHashed(c: Curve, step: Step, state: bytes): bytes
    requires StepFits(c, step)
  {
    HashInput(state, Items(step.claim, step.commitments), step.claim.challengeTag)
  }

  /** The transcript after a run from a starting state. */
  ghost function RunState(c: Curve, keccak: bytes -> Digest, run: seq<Step>, start: bytes): bytes
    requires RunFits(c, run)
  {
    if run == [] then start
    else
      var last := run[|run| - 1];
      assert StepFits(c, last);
      StateAfter(keccak, last.claim, RunState(c, keccak, run[..|run| - 1], start), last.commitments)
  }

  /** The bytes hashed for the challenge of the last proof of a run. */
  ghost function RunHashed(c: Curve, keccak: bytes -> Digest, run: seq<Step>, start: bytes): bytes
    requires RunFits(c, run) && run != []
  {
    assert StepFits(c, run[|run| - 1]);
    StepHashed(c, run[|run| - 1], RunState(c, keccak, run[..|run| - 1], start))
  }

  // ---------- the bytes of one proof have a length fixed by its kind ----------

  ghost predicate SameLengths(a: seq<Item>, b: seq<Item>)
  {
    |a| == |b| && forall i :: 0 <= i < |a| ==> |a[i].tag| == |b[i].tag| && |a[i].data| == |b[i].data|
  }

  lemma {:induction false} SameLengthsEncode(a: seq<Item>, b: seq<Item>)
    requires SameLengths(a, b)
    ensures |EncodeItems(a)| == |EncodeItems(b)|
  {
    if a != [] {
      SameLengthsEncode(a[1..], b[1..]);
    }
  }

  lemma SameLengthsConcat(a: seq<Item>, b: seq<Item>, a': seq<Item>, b': seq<Item>)
    requires SameLengths(a, a') && SameLengths(b, b')
    ensures SameLengths(a + b, a' + b')
  {
  }

  /** Claims with the same labels and the same sizes of further data. */
  ghost predicate SameLayout(a: Claim, b: Claim)
  {
    && a.proofType == b.proofType && a.challengeTag == b.challengeTag && a.commitmentTags == b.commitmentTags
    && |a.points| == |b.points| && (forall i :: 0 <= i < |a.points| ==> a.points[i].tag == b.points[i].tag)
    && SameLengths(a.extra, b.extra)
  }

  ghost predicate SameLayouts(a: seq<Step>, b: seq<Step>)
  {
    |a| == |b| && forall i :: 0 <= i < |a| ==> SameLayout(a[i].claim, b[i].claim)
  }

  lemma LayoutFixesLength(a: Claim, A: seq<Affine>, b: Claim, B: seq<Affine>)
    requires SameLayout(a, b) && |a.commitmentTags| == |A| == |B|
    ensures |EncodeItems(Items(a, A))| == |EncodeItems(Items(b, B))|
  {
    var h, h' := [Item(Ascii("proof_type"), a.proofType)], [Item(Ascii("proof_type"), b.proofType)];
    var p, p' := PointItems(a.points), PointItems(b.points);
    var k, k' := PointItems(Label(a.commitmentTags, A)), PointItems(Label(b.commitmentTags, B));
    SameLengthsConcat(h, p, h', p');
    SameLengthsConcat(h + p, a.extra, h' + p', b.extra);
    SameLengthsConcat(h + p + a.extra, k, h' + p' + b.extra, k');
    SameLengthsEncode(Items(a, A), Items(b, B));
  }

  /** Hence the transcripts of two runs of one layout stay the same distance apart in length. */
  lemma {:induction false} RunLengths(c: Curve, keccak: bytes -> Digest, a: seq<Step>, s: bytes, b: seq<Step>, t: bytes)
    requires RunFits(c, a) && RunFits(c, b) && SameLayouts(a, b)
    ensures |RunState(c, keccak, a, s)| - |s| == |RunState(c, keccak, b, t)| - |t|
  {
    if a != [] {
      var n := |a| - 1;
      RunLengths(c, keccak, a[..n], s, b[..n], t);
      assert StepFits(c, a[n]) && StepFits(c, b[n]) && SameLayout(a[n].claim, b[n].claim);
      LayoutFixesLength(a[n].claim, a[n].commitments, b[n].claim, b[n].commitments);
    }
  }

  // ---------- binding ----------

  lemma EncodeItemsInjective(a: seq<Item>, b: seq<Item>)
    requires ShortItems(a) && ShortItems(b) && EncodeItems(a) == EncodeItems(b)
    ensures a == b
  {
    DecodesItems(a, []);
    DecodesItems(b, []);
  }

  /** Equal hashed bytes over states of equal length split into equal states and equal absorbed items. */
  lemma HashInputCuts(s: bytes, a: seq<Item>, t: bytes, b: seq<Item>, tag: bytes)
    requires |s| == |t| && |EncodeItems(a)| == |EncodeItems(b)|
    requires HashInput(s, a, tag) == HashInput(t, b, tag)
    ensures s == t && EncodeItems(a) == EncodeItems(b)
  {
    var n, m := |s|, |s| + |EncodeItems(a)|;
    assert s == HashInput(s, a, tag)[..n] == HashInput(t, b, tag)[..n] == t;
    assert EncodeItems(a) == HashInput(s, a, tag)[n..m] == HashInput(t, b, tag)[n..m] == EncodeItems(b);
  }

  lemma HashInputLength(s: bytes, a: seq<Item>, t: bytes, b: seq<Item>, tag: bytes)
    requires |EncodeItems(a)| == |EncodeItems(b)|
    requires HashInput(s, a, tag) == HashInput(t, b, tag)
    ensures |s| == |t|
  {
    assert |HashInput(s, a, tag)| == |s| + |EncodeItems(a)| + |Frame(tag)|;
    assert |HashInput(t, b, tag)| == |t| + |EncodeItems(b)| + |Frame(tag)|;
  }

  /** The same statement data and commitments. */
  predicate SameStep(a: Step, b: Step)
  {
    a.claim.points == b.claim.points && a.claim.extra == b.claim.extra && a.commitments == b.commitments
  }

  /** One step: equal hashed bytes over equal-length states give equal states, data and commitments. */
  lemma StepBinds(c: Curve, s: bytes, a: Step, t: bytes, b: Step)
    requires FitsWire(c) && StepFits(c, a) && StepFits(c, b) && SameLayout(a.claim, b.claim)
    requires StepHashed(c, a, s) == StepHashed(c, b, t)
    ensures s == t && SameStep(a, b)
  {
    var p, q := Items(a.claim, a.commitments), Items(b.claim, b.commitments);
    LayoutFixesLength(a.claim, a.commitments, b.claim, b.commitments);
    HashInputLength(s, p, t, q, a.claim.challengeTag);
    HashInputCuts(s, p, t, q, a.claim.challengeTag);
    ItemsAreShort(a.claim, a.commitments);
    ItemsAreShort(b.claim, b.commitments);
    EncodeItemsInjective(p, q);
    ItemsBind(c, a.claim, a.commitments, b.claim, b.commitments);
  }

  ghost predicate SameSteps(a: seq<Step>, b: seq<Step>)
  {
    |a| == |b| && forall i :: 0 <= i < |a| ==> SameStep(a[i], b[i])
  }

  lemma SameStepsExtend(a: seq<Step>, b: seq<Step>)
    requires |a| == |b| > 0 && SameStep(a[|a| - 1], b[|a| - 1])
    requires |a| == 1 || SameSteps(a[..|a| - 1], b[..|a| - 1])
    ensures SameSteps(a, b)
  {
    var n := |a| - 1;
    forall i | 0 <= i < n ensures SameStep(a[i], b[i]) {
      assert a[..n][i] == a[i] && b[..n][i] == b[i];
    }
  }

  /** The digest drawn at step k of a run, counting from 1. */
  ghost function DigestAt(c: Curve, keccak: bytes -> Digest, run: seq<Step>, start: bytes, k: nat): Digest
    requires RunFits(c, run) && 0 < k <= |run|
  {
    Apply(keccak, RunHashed(c, keccak, run[..k], start))
  }

  /** All digests but the last, which is not folded in before the last bytes are hashed. */
  ghost predicate SameDigests(c: Curve, keccak1: bytes -> Digest, a: seq<Step>, s: bytes,
                              keccak2: bytes -> Digest, b: seq<Step>, t: bytes)
    requires RunFits(c, a) && RunFits(c, b) && |a| == |b|
  {
    forall k {:trigger DigestAt(c, keccak1, a, s, k)} :: 0 < k < |a| ==>
      DigestAt(c, keccak1, a, s, k) == DigestAt(c, keccak2, b, t, k)
  }

  lemma DigestOfPrefix(c: Curve, keccak: bytes -> Digest, run: seq<Step>, start: bytes, n: nat, k: nat)
    requires RunFits(c, run) && 0 < k <= n <= |run|
    ensures DigestAt(c, keccak, run[..n], start, k) == DigestAt(c, keccak, run, start, k)
  {
    assert run[..n][..k] == run[..k];
  }

  lemma PrefixDigests(c: Curve, keccak1: bytes -> Digest, a: seq<Step>, s: bytes,
                      keccak2: bytes -> Digest, b: seq<Step>, t: bytes, n: nat)
    requires RunFits(c, a) && RunFits(c, b) && |a| == |b| && n <= |a|
    requires SameDigests(c, keccak1, a, s, keccak2, b, t)
    ensures SameDigests(c, keccak1, a[..n], s, keccak2, b[..n], t)
  {
    forall k | 0 < k < n ensures DigestAt(c, keccak1, a[..n], s, k) == DigestAt(c, keccak2, b[..n], t, k) {
      DigestOfPrefix(c, keccak1, a, s, n, k);
      DigestOfPrefix(c, keccak2, b, t, n, k);
    }
  }

  lemma SameDigestsExtend(c: Curve, keccak1: bytes -> Digest, a: seq<Step>, s: bytes,
                          keccak2: bytes -> Digest, b: seq<Step>, t: bytes)
    requires RunFits(c, a) && RunFits(c, b) && |a| == |b| > 1
    requires var n := |a| - 1;
             && SameDigests(c, keccak1, a[..n], s, keccak2, b[..n], t)
             && DigestAt(c, keccak1, a[..n], s, n) == DigestAt(c, keccak2, b[..n], t, n)
    ensures SameDigests(c, keccak1, a, s, keccak2, b, t)
  {
    var n := |a| - 1;
    var a', b' := a[..n], b[..n];
    forall k | 0 < k < |a| ensures DigestAt(c, keccak1, a, s, k) == DigestAt(c, keccak2, b, t, k) {
      DigestOfPrefix(c, keccak1, a, s, n, k);
      DigestOfPrefix(c, keccak2, b, t, n, k);
      assert DigestAt(c, keccak1, a', s, k) == DigestAt(c, keccak2, b', t, k);
    }
  }

  /** A state after a proof is the bytes it hashed and the digest drawn from them. */
  lemma StateSplits(c: Curve, keccak1: bytes -> Digest, a: seq<Step>, s: bytes,
                    keccak2: bytes -> Digest, b: seq<Step>, t: bytes)
    requires RunFits(c, a) && RunFits(c, b) && a != [] && b != []
    ensures RunState(c, keccak1, a, s) == RunState(c, keccak2, b, t) <==>
            && RunHashed(c, keccak1, a, s) == RunHashed(c, keccak2, b, t)
            && DigestAt(c, keccak1, a, s, |a|) == DigestAt(c, keccak2, b, t, |b|)
  {
    assert a[..|a|] == a && b[..|b|] == b;
    var x, y := RunHashed(c, keccak1, a, s), RunHashed(c, keccak2, b, t);
    var S, T := RunState(c, keccak1, a, s), RunState(c, keccak2, b, t);
    assert S == x + Apply(keccak1, x) && T == y + Apply(keccak2, y);
    assert S[..|S| - 32] == x && S[|S| - 32..] == Apply(keccak1, x);
    assert T[..|T| - 32] == y && T[|T| - 32..] == Apply(keccak2, y);
  }

  /** Everything before the last hash is read off the bytes hashed. */
  lemma {:induction false} HashedRunDetermines(c: Curve, keccak1: bytes -> Digest, a: seq<Step>, s: bytes,
                                               keccak2: bytes -> Digest, b: seq<Step>, t: bytes)
    requires FitsWire(c) && RunFits(c, a) && RunFits(c, b) && SameLayouts(a, b) && a != []
    requires RunHashed(c, keccak1, a, s) == RunHashed(c, keccak2, b, t)
    ensures s == t && SameSteps(a, b) && SameDigests(c, keccak1, a, s, keccak2, b, t)
  {
    var n := |a| - 1;
    var a', b' := a[..n], b[..n];
    assert StepFits(c, a[n]) && StepFits(c, b[n]) && SameLayout(a[n].claim, b[n].claim);
    StepBinds(c, RunState(c, keccak1, a', s), a[n], RunState(c, keccak2, b', t), b[n]);
    if a' != [] {
      StateSplits(c, keccak1, a', s, keccak2, b', t);
      HashedRunDetermines(c, keccak1, a', s, keccak2, b', t);
      SameDigestsExtend(c, keccak1, a, s, keccak2, b, t);
    }
    SameStepsExtend(a, b);
  }

  /** And nothing else enters those bytes. */
  lemma {:induction false} RunDeterminesHashed(c: Curve, keccak1: bytes -> Digest, a: seq<Step>, s: bytes,
                                               keccak2: bytes -> Digest, b: seq<Step>, t: bytes)
    requires RunFits(c, a) && RunFits(c, b) && SameLayouts(a, b) && a != []
    requires s == t && SameSteps(a, b) && SameDigests(c, keccak1, a, s, keccak2, b, t)
    ensures RunHashed(c, keccak1, a, s) == RunHashed(c, keccak2, b, t)
  {
    var n := |a| - 1;
    var a', b' := a[..n], b[..n];
    assert SameStep(a[n], b[n]) && SameLayout(a[n].claim, b[n].claim);
    if a' != [] {
      PrefixDigests(c, keccak1, a, s, keccak2, b, t, n);
      RunDeterminesHashed(c, keccak1, a', s, keccak2, b', t);
      DigestOfPrefix(c, keccak1, a, s, n, n);
      DigestOfPrefix(c, keccak2, b, t, n, n);
      StateSplits(c, keccak1, a', s, keccak2, b', t);
    }
  }

  /**
   The bytes hashed at the last step of a run are exactly a record of the starting transcript, of the
   data and commitments of every step, and of the digest drawn at every earlier step: two runs of one
   layout, even under two hash functions, hash the same bytes if and only if they agree in all of these.
   */
  lemma RunBinds(c: Curve, keccak1: bytes -> Digest, a: seq<Step>, s: bytes,
                 keccak2: bytes -> Digest, b: seq<Step>, t: bytes)
    requires FitsWire(c) && RunFits(c, a) && RunFits(c, b) && SameLayouts(a, b) && a != []
    ensures RunHashed(c, keccak1, a, s) == RunHashed(c, keccak2, b, t)
            <==> s == t && SameSteps(a, b) && SameDigests(c, keccak1, a, s, keccak2, b, t)
  {
    if RunHashed(c, keccak1, a, s) == RunHashed(c, keccak2, b, t) {
      HashedRunDetermines(c, keccak1, a, s, keccak2, b, t);
    }
    if s == t && SameSteps(a, b) && SameDigests(c, keccak1, a, s, keccak2, b, t) {
      RunDeterminesHashed(c, keccak1, a, s, keccak2, b, t);
    }
  }

  /** With two hash functions, one run hashes the same last bytes only if every earlier digest was the same. */
  lemma DigestsAreFolded(c: Curve, keccak1: bytes -> Digest, keccak2: bytes -> Digest, run: seq<Step>, s: bytes, k: nat)
    requires FitsWire(c) && RunFits(c, run) && 0 < k < |run|
    requires RunHashed(c, keccak1, run, s) == RunHashed(c, keccak2, run, s)
    ensures keccak1(RunHashed(c, keccak1, run[..k], s)) == keccak2(RunHashed(c, keccak2, run[..k], s))
  {
    assert SameLayouts(run, run);
    RunBinds(c, keccak1, run, s, keccak2, run, s);
    assert DigestAt(c, keccak1, run, s, k) == DigestAt(c, keccak2, run, s, k);
  }

  // ---------- the six kinds ----------

  lemma KindFixesLayout(c: Curve, a: Statement, b: Statement)
    requires SameKind(a, b)
    ensures SameLayout(ClaimOf(c, a), ClaimOf(c, b))
  {
  }

  /** The steps of a run of proofs of the given statements with the given commitments. */
  function Steps(c: Curve, sts: seq<Statement>, As: seq<seq<Affine>>): (run: seq<Step>)
    requires |sts| == |As|
    ensures |run| == |sts|
  {
    seq(|sts|, i requires 0 <= i < |sts| => Step(ClaimOf(c, sts[i]), As[i]))
  }

  ghost predicate StatementsReduced(c: Curve, sts: seq<Statement>, As: seq<seq<Affine>>)
  {
    |sts| == |As| && forall i :: 0 <= i < |sts| ==>
      |ClaimOf(c, sts[i]).commitmentTags| == |As[i]| && StatementReduced(c, sts[i], As[i])
  }

  lemma StepsFit(c: Curve, sts: seq<Statement>, As: seq<seq<Affine>>)
    requires StatementsReduced(c, sts, As)
    ensures RunFits(c, Steps(c, sts, As))
  {
    forall i | 0 <= i < |sts| ensures StepFits(c, Steps(c, sts, As)[i]) {
      StatementIsShort(c, sts[i]);
    }
  }

  /** The bytes hashed for the last proof of a run of the six kinds. */
  ghost function StatementsHashed(c: Curve, keccak: bytes -> Digest, sts: seq<Statement>, As: seq<seq<Affine>>,
                                  start: bytes): bytes
    requires StatementsReduced(c, sts, As) && sts != []
  {
    StepsFit(c, sts, As);
    RunHashed(c, keccak, Steps(c, sts, As), start)
  }

  /**
   In runs of the same kinds of proof, equal bytes hashed at step k force equal statements and
   commitments at every step up to k, and equal starting transcripts.
   */
  lemma StatementRunBinds(c: Curve, keccak: bytes -> Digest, start1: bytes, sts1: seq<Statement>, As1: seq<seq<Affine>>,
                          start2: bytes, sts2: seq<Statement>, As2: seq<seq<Affine>>)
    requires FitsWire(c) && 0 < |sts1| == |sts2| && forall i :: 0 <= i < |sts1| ==> SameKind(sts1[i], sts2[i])
    requires StatementsReduced(c, sts1, As1) && StatementsReduced(c, sts2, As2)
    requires StatementsHashed(c, keccak, sts1, As1, start1) == StatementsHashed(c, keccak, sts2, As2, start2)
    ensures start1 == start2 && sts1 == sts2 && As1 == As2
  {
    var a, b := Steps(c, sts1, As1), Steps(c, sts2, As2);
    StepsFit(c, sts1, As1);
    StepsFit(c, sts2, As2);
    forall i | 0 <= i < |a| ensures SameLayout(a[i].claim, b[i].claim) {
      KindFixesLayout(c, sts1[i], sts2[i]);
    }
    RunBinds(c, keccak, a, start1, keccak, b, start2);
    forall i | 0 <= i < |a| ensures sts1[i] == sts2[i] && As1[i] == As2[i] {
      assert SameStep(a[i], b[i]) && SameLayout(a[i].claim, b[i].claim);
      PointsDetermineStatement(c, sts1[i], sts2[i]);
    }
  }
}
