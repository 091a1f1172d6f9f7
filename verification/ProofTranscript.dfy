/** How the prove and verify functions use a caller's transcript, or the default one. */
module ProofTranscripts {
  import opened Bytes
  import opened Curves
  import opened Transcripts
  import opened Sigma
  import opened FiatShamir

  const DEFAULT_DOMAIN: bytes := Ascii("x/confidential/v1")

  /** The bytes a proof starts from. */
  ghost function StartState(t: Transcript?): bytes
    reads t
  {
    if t == null then Frame(DEFAULT_DOMAIN) else t.state
  }

  /** A caller's transcript was left in the given state. */
  ghost predicate EndsIn(t: Transcript?, state: bytes)
    reads t
  {
    t != null ==> t.Valid() && t.state == state
  }

  ghost predicate Usable(t: Transcript?, keccak: bytes -> Digest)
    reads t
  {
    t != null ==> t.Valid() && t.keccak == keccak
  }

  method OpenTranscript(t: Transcript?, keccak: bytes -> Digest) returns (r: Transcript)
    requires Usable(t, keccak)
    ensures r.Valid() && r.keccak == keccak && r.state == StartState(t)
    ensures if t == null then fresh(r) else r == t
  {
    if t == null {
      r := new Transcript(keccak, DEFAULT_DOMAIN);
    } else {
      r := t;
    }
  }

  /** One AppendPoint call for each point, in order. */
  method AppendPoints(t: Transcript, points: seq<Labelled>)
    requires t.Valid()
    modifies t`state, t`pending
    ensures t.Valid() && t.pending == old(t.pending) + PointItems(points)
  {
    var i := 0;
    while i < |points|
      invariant i <= |points| && t.Valid()
      invariant t.pending == old(t.pending) + PointItems(points)[..i]
    {
      t.AppendPoint(points[i].tag, points[i].point);
      i := i + 1;
    }
  }

  /** One AppendBytes call for each item, in order. */
  method AppendItems(t: Transcript, items: seq<Item>)
    requires t.Valid()
    modifies t`state, t`pending
    ensures t.Valid() && t.pending == old(t.pending) + items
  {
    var i := 0;
    while i < |items|
      invariant i <= |items| && t.Valid() && t.pending == old(t.pending) + items[..i]
    {
      t.AppendBytes(items[i].tag, items[i].data);
      i := i + 1;
    }
  }

  /** Everything a proof absorbs before its challenge. */
  method AppendProof(t: Transcript, proofType: bytes, points: seq<Labelled>, extra: seq<Item>,
                     commitments: seq<Labelled>, ghost claim: Claim, ghost A: seq<Affine>)
    requires t.Valid() && |claim.commitmentTags| == |A|
    requires proofType == claim.proofType && points == claim.points && extra == claim.extra
    requires commitments == Label(claim.commitmentTags, A)
    modifies t`state, t`pending
    ensures t.Valid() && t.pending == old(t.pending) + Items(claim, A)
  {
    ghost var before := t.pending;
    t.AppendBytes(Ascii("proof_type"), proofType);
    AppendPoints(t, points);
    AppendItems(t, extra);
    AppendPoints(t, commitments);
    JoinParts(before, [Item(Ascii("proof_type"), proofType)], PointItems(points), extra, PointItems(commitments));
  }

  lemma JoinParts(before: seq<Item>, a: seq<Item>, b: seq<Item>, d: seq<Item>, e: seq<Item>)
    ensures before + a + b + d + e == before + (a + b + d + e)
  {
  }

  /** Draws the challenge of a proof whose items were appended after the items before. */
  method DrawChallenge(c: Curve, t: Transcript, ghost claim: Claim, ghost A: seq<Affine>, ghost before: seq<Item>,
                       tag: bytes) returns (e: nat)
    requires t.Valid() && c.q > 0 && |claim.commitmentTags| == |A|
    requires t.pending == before + Items(claim, A) && tag == claim.challengeTag
    modifies t
    ensures t.Valid()
    ensures e == ChallengeFor(c, t.keccak, claim, old(t.anchor) + EncodeItems(before), A)
    ensures t.state == StateAfter(t.keccak, claim, old(t.anchor) + EncodeItems(before), A)
  {
    HashInputSplits(t.anchor, before, Items(claim, A), tag);
    e := t.ChallengeScalar(tag, c.q);
  }

  // The verifiers compute each side of a row from at most two products.

  lemma RowOne(c: Curve, a: Term, target: Affine, A: Affine, e: nat, z: seq<nat>)
    requires a.index < |z|
    ensures RowHolds(c, Equation([a], target), A, e, z)
            <==> c.Mul(z[a.index], a.base) == c.Plus(A, c.Mul(e, target))
  {
  }

  lemma RowTwo(c: Curve, a: Term, b: Term, target: Affine, A: Affine, e: nat, z: seq<nat>)
    requires a.index < |z| && b.index < |z|
    ensures RowHolds(c, Equation([a, b], target), A, e, z)
            <==> c.Plus(c.Mul(z[a.index], a.base), c.Mul(z[b.index], b.base)) == c.Plus(A, c.Mul(e, target))
  {
    CombineTwo(c, z, a, b);
  }

  lemma CombineOne(c: Curve, x: seq<nat>, a: Term)
    requires a.index < |x|
    ensures Indexed(|x|, [a]) && Combine(c, x, [a]) == c.Mul(x[a.index], a.base)
  {
  }

  lemma CombineTwo(c: Curve, x: seq<nat>, a: Term, b: Term)
    requires a.index < |x| && b.index < |x|
    ensures Indexed(|x|, [a, b])
    ensures Combine(c, x, [a, b]) == c.Plus(c.Mul(x[a.index], a.base), c.Mul(x[b.index], b.base))
  {
    assert [a, b][1..] == [b];
  }
}
