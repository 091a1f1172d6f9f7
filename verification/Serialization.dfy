/**
 Wire formats. Every proof is its scalars in 32-byte slots followed by its points in 64-byte slots.
 Reading accepts exactly the byte strings that writing produces.
 */
module Serialization {
  import opened Scalars
  import opened Bytes
  import opened Curves
  import opened Encoding
  import opened Sigma
  import opened FiatShamir
  import opened Ciphertexts
  import opened Dleq
  import opened Equality
  import opened ApplyPending
  import opened CommitmentEquality
  import opened Possession

  datatype WireError = WrongLength | BadScalar(index: nat) | BadPoint(index: nat) | Degenerate

  datatype Result<+T> = Success(value: T) | Failure(error: WireError)

  const SCALAR_SIZE: nat := 32
  const POINT_SIZE: nat := 64

  // ---------- slots ----------

  /** Reads a canonical scalar: values from q up are rejected. */
  function ScalarSlot(c: Curve, b: bytes): Option<nat>
  {
    var s := FromBigEndian(b);
    if s < c.q then Some(s) else None
  }

  /** The two format bits at the top of the first byte. */
  predicate IsUncompressed(b: bytes)
  {
    |b| >= 1 && b[0] / 64 == 0
  }

  /** Reads an uncompressed point: both coordinates reduced, and on the curve. */
  function PointSlot(c: Curve, b: bytes): Option<Affine>
    requires |b| == POINT_SIZE
  {
    if !IsUncompressed(b) then None
    else
      var x, y := FromBigEndian(b[..32]), FromBigEndian(b[32..]);
      if x < c.p && y < c.p && c.OnCurve(Affine(x, y)) then Some(Affine(x, y)) else None
  }

  lemma ScalarSlotExact(c: Curve, b: bytes, s: nat)
    requires FitsWire(c) && |b| == SCALAR_SIZE
    ensures ScalarSlot(c, b) == Some(s) <==> s < c.q && MarshalScalar(s) == b
  {
    BigEndianCanonical(b);
    if s < c.q {
      BigEndianRoundTrip(s, 32);
    }
  }

  /** What is read from a slot is on the curve and written as that slot. */
  lemma PointSlotRead(c: Curve, b: bytes, P: Affine)
    requires |b| == POINT_SIZE && PointSlot(c, b) == Some(P)
    ensures c.OnCurve(P) && MarshalPoint(P) == b
  {
    BigEndianCanonical(b[..32]);
    BigEndianCanonical(b[32..]);
    assert b == b[..32] + b[32..];
  }

  lemma MarshalsUncompressed(c: Curve, P: Affine)
    requires FitsWire(c) && Reduced(c, P)
    ensures IsUncompressed(MarshalPoint(P))
  {
    ReducedFits(c, P);
    LeadingByte(P.x, 32, 64);
    assert MarshalPoint(P)[0] == ToBigEndian(P.x, 32)[0];
  }

  /** What is written for a reduced curve point is read as that point. */
  lemma PointSlotWritten(c: Curve, P: Affine)
    requires FitsWire(c) && Reduced(c, P) && c.OnCurve(P)
    ensures PointSlot(c, MarshalPoint(P)) == Some(P)
  {
    MarshalsUncompressed(c, P);
    ReducedFits(c, P);
    BigEndianRoundTrip(P.x, 32);
    BigEndianRoundTrip(P.y, 32);
    var x, y := ToBigEndian(P.x, 32), ToBigEndian(P.y, 32);
    assert (x + y)[..32] == x && (x + y)[32..] == y;
  }

  /** A slot is read as P exactly when P is on the curve and its canonical encoding is the slot. */
  lemma PointSlotExact(c: Curve, b: bytes, P: Affine)
    requires c.Valid() && FitsWire(c) && |b| == POINT_SIZE
    ensures PointSlot(c, b) == Some(P) <==> c.OnCurve(P) && MarshalPoint(P) == b
  {
    if PointSlot(c, b) == Some(P) {
      PointSlotRead(c, b, P);
    }
    if c.OnCurve(P) && MarshalPoint(P) == b {
      PointSlotWritten(c, P);
    }
  }

  // ---------- slot sequences ----------

  function EncodeScalars(scalars: seq<nat>): (b: bytes)
    ensures |b| == SCALAR_SIZE * |scalars|
  {
    if scalars == [] then [] else EncodeScalars(scalars[..|scalars| - 1]) + MarshalScalar(scalars[|scalars| - 1])
  }

  function EncodePoints(points: seq<Affine>): (b: bytes)
    ensures |b| == POINT_SIZE * |points|
  {
    if points == [] then [] else EncodePoints(points[..|points| - 1]) + MarshalPoint(points[|points| - 1])
  }

  function EncodeProof(pf: Proof): (b: bytes)
    ensures |b| == SCALAR_SIZE * |pf.responses| + POINT_SIZE * |pf.commitments|
  {
    EncodeScalars(pf.responses) + EncodePoints(pf.commitments)
  }

  /** A proof with canonical scalars and points on the curve. */
  predicate IsWire(c: Curve, pf: Proof, scalars: nat, points: nat)
  {
    && |pf.responses| == scalars && |pf.commitments| == points
    && (forall i :: 0 <= i < scalars ==> pf.responses[i] < c.q)
    && (forall i :: 0 <= i < points ==> c.OnCurve(pf.commitments[i]))
  }

  lemma {:induction false} ScalarAt(scalars: seq<nat>, i: nat)
    requires i < |scalars|
    ensures EncodeScalars(scalars)[SCALAR_SIZE * i..SCALAR_SIZE * (i + 1)] == MarshalScalar(scalars[i])
  {
    var n := |scalars| - 1;
    if i < n {
      ScalarAt(scalars[..n], i);
      assert EncodeScalars(scalars)[32 * i..32 * (i + 1)] == EncodeScalars(scalars[..n])[32 * i..32 * (i + 1)];
    }
  }

  lemma {:induction false} PointAt(points: seq<Affine>, i: nat)
    requires i < |points|
    ensures EncodePoints(points)[POINT_SIZE * i..POINT_SIZE * (i + 1)] == MarshalPoint(points[i])
  {
    var n := |points| - 1;
    if i < n {
      PointAt(points[..n], i);
      assert EncodePoints(points)[64 * i..64 * (i + 1)] == EncodePoints(points[..n])[64 * i..64 * (i + 1)];
    }
  }

  lemma ScalarSlotOfProof(pf: Proof, i: nat)
    requires i < |pf.responses|
    ensures EncodeProof(pf)[32 * i..32 * (i + 1)] == MarshalScalar(pf.responses[i])
  {
    ScalarAt(pf.responses, i);
    SliceOfFirst(EncodeScalars(pf.responses), EncodePoints(pf.commitments), 32 * i, 32 * (i + 1));
  }

  lemma PointSlotOfProof(pf: Proof, i: nat, start: nat)
    requires i < |pf.commitments| && start == 32 * |pf.responses| + 64 * i
    ensures start + 64 <= |EncodeProof(pf)| && EncodeProof(pf)[start..start + 64] == MarshalPoint(pf.commitments[i])
  {
    PointAt(pf.commitments, i);
    SliceOfSecond(EncodeScalars(pf.responses), EncodePoints(pf.commitments), 64 * i, 64 * (i + 1), start, start + 64);
  }

  lemma SliceOfFirst(a: bytes, b: bytes, from: nat, to: nat)
    requires from <= to <= |a|
    ensures (a + b)[from..to] == a[from..to]
  {
  }

  lemma SliceOfSecond(a: bytes, b: bytes, from: nat, to: nat, start: nat, end: nat)
    requires from <= to <= |b| && start == |a| + from && end == |a| + to
    ensures (a + b)[start..end] == b[from..to]
  {
  }

  // ---------- writing ----------

  method MarshalScalarAt(buf: array<byte>, offset: nat, s: nat) returns (next: nat)
    requires offset + SCALAR_SIZE <= buf.Length
    modifies buf
    ensures next == offset + SCALAR_SIZE
    ensures buf[..] == old(buf[..offset]) + MarshalScalar(s) + old(buf[offset + SCALAR_SIZE..])
  {
    CopyInto(buf, offset, MarshalScalar(s));
    next := offset + SCALAR_SIZE;
  }

  method MarshalPointAt(buf: array<byte>, offset: nat, P: Affine) returns (next: nat)
    requires offset + POINT_SIZE <= buf.Length
    modifies buf
    ensures next == offset + POINT_SIZE
    ensures buf[..] == old(buf[..offset]) + MarshalPoint(P) + old(buf[offset + POINT_SIZE..])
  {
    CopyInto(buf, offset, MarshalPoint(P));
    next := offset + POINT_SIZE;
  }

  method CopyInto(buf: array<byte>, offset: nat, b: bytes)
    requires offset + |b| <= buf.Length
    modifies buf
    ensures buf[..] == old(buf[..offset]) + b + old(buf[offset + |b|..])
  {
    var i := 0;
    while i < |b|
      invariant i <= |b|
      invariant forall j :: 0 <= j < buf.Length ==>
                  buf[j] == if offset <= j < offset + i then b[j - offset] else old(buf[j])
    {
      buf[offset + i] := b[i];
      i := i + 1;
    }
  }

  /** Fills the slots at the front of the buffer. */
  method MarshalScalars(buf: array<byte>, scalars: seq<nat>) returns (offset: nat)
    requires SCALAR_SIZE * |scalars| <= buf.Length
    modifies buf
    ensures offset == SCALAR_SIZE * |scalars| && buf[..offset] == EncodeScalars(scalars)
  {
    offset := 0;
    var i := 0;
    while i < |scalars|
      invariant i <= |scalars| && offset == SCALAR_SIZE * i
      invariant buf[..offset] == EncodeScalars(scalars[..i])
    {
      ghost var written := buf[..offset];
      offset := MarshalScalarAt(buf, offset, scalars[i]);
      assert buf[..offset] == written + MarshalScalar(scalars[i]);
      EncodeScalarsAppend(scalars[..i], scalars[i]);
      assert scalars[..i] + [scalars[i]] == scalars[..i + 1];
      i := i + 1;
    }
    assert scalars[..i] == scalars;
  }

  /** Fills the slots from start on, leaving what is before them alone. */
  method MarshalPoints(buf: array<byte>, start: nat, points: seq<Affine>)
    requires start + POINT_SIZE * |points| <= buf.Length
    modifies buf
    ensures buf[..start + POINT_SIZE * |points|] == old(buf[..start]) + EncodePoints(points)
  {
    var i, offset := 0, start;
    while i < |points|
      invariant i <= |points| && offset == start + POINT_SIZE * i
      invariant buf[..offset] == old(buf[..start]) + EncodePoints(points[..i])
    {
      ghost var written := buf[..offset];
      offset := MarshalPointAt(buf, offset, points[i]);
      assert buf[..offset] == written + MarshalPoint(points[i]);
      EncodePointsAppend(points[..i], points[i]);
      assert points[..i] + [points[i]] == points[..i + 1];
      i := i + 1;
    }
    assert points[..i] == points;
  }

  method MarshalProof(pf: Proof) returns (buf: array<byte>)
    ensures fresh(buf) && buf[..] == EncodeProof(pf)
  {
    buf := new byte[SCALAR_SIZE * |pf.responses| + POINT_SIZE * |pf.commitments|](_ => 0);
    var offset := MarshalScalars(buf, pf.responses);
    MarshalPoints(buf, offset, pf.commitments);
    assert buf[..] == buf[..buf.Length];
  }

  // ---------- reading ----------

  /** Scalar slot i holds a canonical scalar. */
  ghost predicate ScalarReads(c: Curve, data: bytes, i: nat)
  {
    32 * i + 32 <= |data| && ScalarSlot(c, data[32 * i..32 * i + 32]).Some?
  }

  /** Point slot i, counting from start, holds a canonical curve point. */
  ghost predicate PointReads(c: Curve, data: bytes, start: nat, i: nat)
  {
    var offset := start + POINT_SIZE * i;
    offset + POINT_SIZE <= |data| && PointSlot(c, data[offset..offset + POINT_SIZE]).Some?
  }

  /** The error reports the first slot, in wire order, that cannot be read. */
  ghost predicate FirstUnreadable(c: Curve, data: bytes, scalars: nat, points: nat, error: WireError)
  {
    match error
    case WrongLength => |data| != SCALAR_SIZE * scalars + POINT_SIZE * points
    case BadScalar(i) =>
      i < scalars && !ScalarReads(c, data, i) && forall j: nat :: j < i ==> ScalarReads(c, data, j)
    case BadPoint(i) =>
      && i < points && !PointReads(c, data, SCALAR_SIZE * scalars, i)
      && (forall j: nat :: j < scalars ==> ScalarReads(c, data, j))
      && (forall j: nat :: j < i ==> PointReads(c, data, SCALAR_SIZE * scalars, j))
    case Degenerate => false
  }

  /** A proof whose encoding has an unreadable slot cannot be well formed. */
  lemma UnreadableScalar(c: Curve, data: bytes, scalars: nat, points: nat, i: nat)
    requires FitsWire(c) && |data| == SCALAR_SIZE * scalars + POINT_SIZE * points && i < scalars
    requires !ScalarReads(c, data, i)
    ensures forall pf :: IsWire(c, pf, scalars, points) ==> EncodeProof(pf) != data
  {
    forall pf | IsWire(c, pf, scalars, points) && EncodeProof(pf) == data ensures false {
      ScalarSlotOfProof(pf, i);
      ScalarSlotExact(c, data[32 * i..32 * (i + 1)], pf.responses[i]);
    }
  }

  lemma UnreadablePoint(c: Curve, data: bytes, scalars: nat, points: nat, i: nat)
    requires c.Valid() && FitsWire(c) && |data| == SCALAR_SIZE * scalars + POINT_SIZE * points && i < points
    requires !PointReads(c, data, SCALAR_SIZE * scalars, i)
    ensures forall pf :: IsWire(c, pf, scalars, points) ==> EncodeProof(pf) != data
  {
    var start := 32 * scalars + 64 * i;
    forall pf | IsWire(c, pf, scalars, points) && EncodeProof(pf) == data ensures false {
      PointSlotOfProof(pf, i, start);
      PointSlotExact(c, data[start..start + 64], pf.commitments[i]);
    }
  }

  lemma SliceSplits(data: bytes, from: nat, mid: nat, to: nat)
    requires from <= mid <= to <= |data|
    ensures data[from..to] == data[from..mid] + data[mid..to]
  {
  }

  lemma EncodeScalarsAppend(scalars: seq<nat>, s: nat)
    ensures EncodeScalars(scalars + [s]) == EncodeScalars(scalars) + MarshalScalar(s)
  {
    assert (scalars + [s])[..|scalars|] == scalars;
  }

  lemma EncodePointsAppend(points: seq<Affine>, P: Affine)
    ensures EncodePoints(points + [P]) == EncodePoints(points) + MarshalPoint(P)
  {
    assert (points + [P])[..|points|] == points;
  }

  /** The scalars read from the slots before offset. */
  ghost predicate ScalarsRead(c: Curve, data: bytes, offset: nat, scalars: seq<nat>)
  {
    offset <= |data| && EncodeScalars(scalars) == data[..offset] && IsScalars(c.q, scalars)
  }

  lemma ScalarRead(c: Curve, data: bytes, i: nat, offset: nat, scalars: seq<nat>, s: nat)
    requires FitsWire(c) && offset == 32 * i && offset + SCALAR_SIZE <= |data| && ScalarsRead(c, data, offset, scalars)
    requires ScalarSlot(c, data[offset..offset + SCALAR_SIZE]) == Some(s)
    ensures ScalarsRead(c, data, offset + SCALAR_SIZE, scalars + [s]) && ScalarReads(c, data, i)
  {
    ScalarSlotExact(c, data[offset..offset + SCALAR_SIZE], s);
    EncodeScalarsAppend(scalars, s);
    SliceSplits(data, 0, offset, offset + SCALAR_SIZE);
  }

  /** The points read from the slots between start and offset. */
  ghost predicate PointsRead(c: Curve, data: bytes, start: nat, offset: nat, points: seq<Affine>)
  {
    && start <= offset <= |data| && EncodePoints(points) == data[start..offset]
    && AllOnCurve(c, points)
  }

  lemma PointRead(c: Curve, data: bytes, start: nat, offset: nat, points: seq<Affine>, P: Affine)
    requires offset + POINT_SIZE <= |data| && PointsRead(c, data, start, offset, points)
    requires PointSlot(c, data[offset..offset + POINT_SIZE]) == Some(P)
    ensures PointsRead(c, data, start, offset + POINT_SIZE, points + [P])
  {
    PointSlotRead(c, data[offset..offset + POINT_SIZE], P);
    EncodePointsAppend(points, P);
    SliceSplits(data, start, offset, offset + POINT_SIZE);
  }

  /** Reads the scalar slots at the front, up to the first that is not canonical. */
  method ReadScalars(c: Curve, data: bytes, n: nat) returns (r: Result<seq<nat>>)
    requires FitsWire(c) && SCALAR_SIZE * n <= |data|
    ensures r.Success? ==> |r.value| == n && ScalarsRead(c, data, SCALAR_SIZE * n, r.value)
    ensures r.Success? ==> forall j: nat :: j < n ==> ScalarReads(c, data, j)
    ensures r.Failure? ==> r.error.BadScalar? && r.error.index < n && !ScalarReads(c, data, r.error.index)
    ensures r.Failure? ==> forall j: nat :: j < r.error.index ==> ScalarReads(c, data, j)
  {
    var scalars: seq<nat> := [];
    var i, offset := 0, 0;
    while i < n
      invariant i <= n && |scalars| == i && offset == SCALAR_SIZE * i
      invariant ScalarsRead(c, data, offset, scalars)
      invariant forall j: nat :: j < i ==> ScalarReads(c, data, j)
    {
      var slot := data[offset..offset + SCALAR_SIZE];
      var s := ScalarSlot(c, slot);
      if s.None? {
        return Failure(BadScalar(i));
      }
      ScalarRead(c, data, i, offset, scalars, s.value);
      scalars := scalars + [s.value];
      i, offset := i + 1, offset + SCALAR_SIZE;
    }
    r := Success(scalars);
  }

  /** Reads the point slots from start on, up to the first that is not a canonical curve point. */
  method ReadPoints(c: Curve, data: bytes, start: nat, n: nat) returns (r: Result<seq<Affine>>)
    requires start + POINT_SIZE * n <= |data|
    ensures r.Success? ==> |r.value| == n && PointsRead(c, data, start, start + POINT_SIZE * n, r.value)
    ensures r.Failure? ==> r.error.BadPoint? && r.error.index < n && !PointReads(c, data, start, r.error.index)
    ensures r.Failure? ==> forall j: nat :: j < r.error.index ==> PointReads(c, data, start, j)
  {
    var points: seq<Affine> := [];
    var i, offset := 0, start;
    while i < n
      invariant i <= n && |points| == i && offset == start + POINT_SIZE * i
      invariant PointsRead(c, data, start, offset, points)
      invariant forall j: nat :: j < i ==> PointReads(c, data, start, j)
    {
      var slot := data[offset..offset + POINT_SIZE];
      var P := PointSlot(c, slot);
      assert P.Some? <==> PointReads(c, data, start, i);
      if P.None? {
        return Failure(BadPoint(i));
      }
      PointRead(c, data, start, offset, points, P.value);
      points := points + [P.value];
      i, offset := i + 1, offset + POINT_SIZE;
    }
    r := Success(points);
  }

  /**
   Accepts exactly the encodings of well-formed proofs, and returns the proof encoded: the bytes
   read are the bytes it would be written as.
   */
  method UnmarshalProof(c: Curve, data: bytes, scalars: nat, points: nat) returns (r: Result<Proof>)
    requires c.Valid() && FitsWire(c)
    ensures r.Success? ==> IsWire(c, r.value, scalars, points) && EncodeProof(r.value) == data
    ensures r.Failure? ==> forall pf :: IsWire(c, pf, scalars, points) ==> EncodeProof(pf) != data
    ensures r.Failure? ==> FirstUnreadable(c, data, scalars, points, r.error)
    ensures r.Failure? && r.error == WrongLength <==> |data| != SCALAR_SIZE * scalars + POINT_SIZE * points
  {
    if |data| != SCALAR_SIZE * scalars + POINT_SIZE * points {
      return Failure(WrongLength);
    }
    var responses := ReadScalars(c, data, scalars);
    if responses.Failure? {
      UnreadableScalar(c, data, scalars, points, responses.error.index);
      return Failure(responses.error);
    }
    var commitments := ReadPoints(c, data, SCALAR_SIZE * scalars, points);
    if commitments.Failure? {
      UnreadablePoint(c, data, scalars, points, commitments.error.index);
      return Failure(commitments.error);
    }
    SliceSplits(data, 0, SCALAR_SIZE * scalars, |data|);
    r := Success(Proof(commitments.value, responses.value));
  }

  /** Well-formed proofs of one shape have different encodings. */
  lemma EncodeProofInjective(c: Curve, a: Proof, b: Proof, scalars: nat, points: nat)
    requires c.Valid() && FitsWire(c) && IsWire(c, a, scalars, points) && IsWire(c, b, scalars, points)
    requires EncodeProof(a) == EncodeProof(b)
    ensures a == b
  {
    forall i | 0 <= i < scalars ensures a.responses[i] == b.responses[i] {
      ScalarSlotOfProof(a, i);
      ScalarSlotOfProof(b, i);
      BigEndianInjective(a.responses[i], b.responses[i], 32);
    }
    forall i | 0 <= i < points ensures a.commitments[i] == b.commitments[i] {
      PointSlotOfProof(a, i, 32 * scalars + 64 * i);
      PointSlotOfProof(b, i, 32 * scalars + 64 * i);
      MarshalPointInjective(c, a.commitments[i], b.commitments[i]);
    }
  }

  /** Writing and reading back returns the same proof. */
  method ProofRoundTrip(c: Curve, pf: Proof, scalars: nat, points: nat) returns (r: Result<Proof>)
    requires c.Valid() && FitsWire(c) && IsWire(c, pf, scalars, points)
    ensures r == Success(pf)
  {
    var buf := MarshalProof(pf);
    r := UnmarshalProof(c, buf[..], scalars, points);
    if r.Success? {
      EncodeProofInjective(c, pf, r.value, scalars, points);
    }
  }

  // ---------- the six proof types ----------

  datatype Kind = DleqKind | EqualityKind | Equality2Kind | ApplyKind | CommitmentKind | PopKind

  datatype AnyProof =
    | OfDleq(dleq: DLEQProof)
    | OfEquality(equality: EqualityProof)
    | OfEquality2(equality2: Equality2Proof)
    | OfApply(apply: ApplyPendingProof)
    | OfCommitment(commitment: CommitmentEqualityProof)
    | OfPop(pop: PopProof)
  {
    function Kind(): Kind
    {
      match this
      case OfDleq(_) => DleqKind
      case OfEquality(_) => EqualityKind
      case OfEquality2(_) => Equality2Kind
      case OfApply(_) => ApplyKind
      case OfCommitment(_) => CommitmentKind
      case OfPop(_) => PopKind
    }

    function View(): Proof
    {
      match this
      case OfDleq(p) => p.View()
      case OfEquality(p) => p.View()
      case OfEquality2(p) => p.View()
      case OfApply(p) => p.View()
      case OfCommitment(p) => p.View()
      case OfPop(p) => p.View()
    }
  }

  /** The numbers of scalar and point slots. */
  function Shape(kind: Kind): (nat, nat)
  {
    match kind
    case DleqKind => (1, 2)
    case EqualityKind => (4, 6)
    case Equality2Kind => (3, 4)
    case ApplyKind => (3, 4)
    case CommitmentKind => (3, 3)
    case PopKind => (1, 1)
  }

  /** The documented proof sizes. */
  function WireSize(kind: Kind): (n: nat)
    ensures n == SCALAR_SIZE * Shape(kind).0 + POINT_SIZE * Shape(kind).1
  {
    match kind
    case DleqKind => 160
    case EqualityKind => 512
    case Equality2Kind => 352
    case ApplyKind => 352
    case CommitmentKind => 288
    case PopKind => 96
  }

  /** Fills the fields of a proof from its slots, in wire order. */
  function FromSlots(kind: Kind, pf: Proof): (p: AnyProof)
    requires |pf.responses| == Shape(kind).0 && |pf.commitments| == Shape(kind).1
    ensures p.Kind() == kind && p.View() == pf
  {
    var z, A := pf.responses, pf.commitments;
    match kind
    case DleqKind => OfDleq(DLEQProof(z[0], A[0], A[1]))
    case EqualityKind => OfEquality(EqualityProof(z[0], z[1], z[2], z[3], A[0], A[1], A[2], A[3], A[4], A[5]))
    case Equality2Kind => OfEquality2(Equality2Proof(z[0], z[1], z[2], A[0], A[1], A[2], A[3]))
    case ApplyKind => OfApply(ApplyPendingProof(z[0], z[1], z[2], A[0], A[1], A[2], A[3]))
    case CommitmentKind => OfCommitment(CommitmentEqualityProof(z[0], z[1], z[2], A[0], A[1], A[2]))
    case PopKind => OfPop(PopProof(z[0], A[0]))
  }

  /** The documented wire formats: the fields of each type at their byte offsets. */
  ghost predicate WireLayout(p: AnyProof, b: bytes)
  {
    match p
    case OfDleq(p) =>
      && |b| == 160
      && b[0..32] == MarshalScalar(p.S) && b[32..96] == MarshalPoint(p.R1)
      && b[96..160] == MarshalPoint(p.R2)
    case OfEquality(p) =>
      && |b| == 512
      && b[0..32] == MarshalScalar(p.Sm) && b[32..64] == MarshalScalar(p.Sr1)
      && b[64..96] == MarshalScalar(p.Sr2) && b[96..128] == MarshalScalar(p.Sr3)
      && b[128..192] == MarshalPoint(p.R11) && b[192..256] == MarshalPoint(p.R21)
      && b[256..320] == MarshalPoint(p.R12) && b[320..384] == MarshalPoint(p.R22)
      && b[384..448] == MarshalPoint(p.R13) && b[448..512] == MarshalPoint(p.R23)
    case OfEquality2(p) =>
      && |b| == 352
      && b[0..32] == MarshalScalar(p.Sm) && b[32..64] == MarshalScalar(p.Sr1)
      && b[64..96] == MarshalScalar(p.Sr2) && b[96..160] == MarshalPoint(p.R11)
      && b[160..224] == MarshalPoint(p.R21) && b[224..288] == MarshalPoint(p.R12)
      && b[288..352] == MarshalPoint(p.R22)
    case OfApply(p) =>
      && |b| == 352
      && b[0..32] == MarshalScalar(p.Sm) && b[32..64] == MarshalScalar(p.Ssk)
      && b[64..96] == MarshalScalar(p.Srn) && b[96..160] == MarshalPoint(p.R1)
      && b[160..224] == MarshalPoint(p.R2) && b[224..288] == MarshalPoint(p.R3)
      && b[288..352] == MarshalPoint(p.R4)
    case OfCommitment(p) =>
      && |b| == 288
      && b[0..32] == MarshalScalar(p.Zv) && b[32..64] == MarshalScalar(p.Zr)
      && b[64..96] == MarshalScalar(p.Zs) && b[96..160] == MarshalPoint(p.A1)
      && b[160..224] == MarshalPoint(p.A2) && b[224..288] == MarshalPoint(p.A3)
    case OfPop(p) =>
      && |b| == 96
      && b[0..32] == MarshalScalar(p.Z) && b[32..96] == MarshalPoint(p.A)
  }

  // An encoded proof has this layout, and the layout leaves no byte open.

  lemma ScalarField(pf: Proof, i: nat, s: nat, from: nat, to: nat)
    requires i < |pf.responses| && s == pf.responses[i] && from == 32 * i && to == from + 32
    ensures to <= |EncodeProof(pf)| && EncodeProof(pf)[from..to] == MarshalScalar(s)
  {
    ScalarSlotOfProof(pf, i);
  }

  lemma PointField(pf: Proof, i: nat, P: Affine, from: nat, to: nat)
    requires i < |pf.commitments| && P == pf.commitments[i] && from == 32 * |pf.responses| + 64 * i && to == from + 64
    ensures to <= |EncodeProof(pf)| && EncodeProof(pf)[from..to] == MarshalPoint(P)
  {
    PointSlotOfProof(pf, i, from);
  }

  lemma EncodedHasLayout(p: AnyProof)
    ensures WireLayout(p, EncodeProof(p.View()))
  {
    var pf := p.View();
    match p
    case OfDleq(p) =>
      ScalarField(pf, 0, p.S, 0, 32);
      PointField(pf, 0, p.R1, 32, 96);
      PointField(pf, 1, p.R2, 96, 160);
    case OfEquality(p) =>
      ScalarField(pf, 0, p.Sm, 0, 32);
      ScalarField(pf, 1, p.Sr1, 32, 64);
      ScalarField(pf, 2, p.Sr2, 64, 96);
      ScalarField(pf, 3, p.Sr3, 96, 128);
      PointField(pf, 0, p.R11, 128, 192);
      PointField(pf, 1, p.R21, 192, 256);
      PointField(pf, 2, p.R12, 256, 320);
      PointField(pf, 3, p.R22, 320, 384);
      PointField(pf, 4, p.R13, 384, 448);
      PointField(pf, 5, p.R23, 448, 512);
    case OfEquality2(p) =>
      ScalarField(pf, 0, p.Sm, 0, 32);
      ScalarField(pf, 1, p.Sr1, 32, 64);
      ScalarField(pf, 2, p.Sr2, 64, 96);
      PointField(pf, 0, p.R11, 96, 160);
      PointField(pf, 1, p.R21, 160, 224);
      PointField(pf, 2, p.R12, 224, 288);
      PointField(pf, 3, p.R22, 288, 352);
    case OfApply(p) =>
      ScalarField(pf, 0, p.Sm, 0, 32);
      ScalarField(pf, 1, p.Ssk, 32, 64);
      ScalarField(pf, 2, p.Srn, 64, 96);
      PointField(pf, 0, p.R1, 96, 160);
      PointField(pf, 1, p.R2, 160, 224);
      PointField(pf, 2, p.R3, 224, 288);
      PointField(pf, 3, p.R4, 288, 352);
    case OfCommitment(p) =>
      ScalarField(pf, 0, p.Zv, 0, 32);
      ScalarField(pf, 1, p.Zr, 32, 64);
      ScalarField(pf, 2, p.Zs, 64, 96);
      PointField(pf, 0, p.A1, 96, 160);
      PointField(pf, 1, p.A2, 160, 224);
      PointField(pf, 2, p.A3, 224, 288);
    case OfPop(p) =>
      ScalarField(pf, 0, p.Z, 0, 32);
      PointField(pf, 0, p.A, 32, 96);
  }

  /** Agreement on one more slice. */
  lemma Extends(a: bytes, b: bytes, mid: nat, to: nat)
    requires mid <= to <= |a| && to <= |b| && a[..mid] == b[..mid] && a[mid..to] == b[mid..to]
    ensures a[..to] == b[..to]
  {
    SliceSplits(a, 0, mid, to);
    SliceSplits(b, 0, mid, to);
  }

  lemma LayoutIsUnique(p: AnyProof, a: bytes, b: bytes)
    requires WireLayout(p, a) && WireLayout(p, b)
    ensures a == b
  {
    match p
    case OfDleq(p) =>
      Extends(a, b, 0, 32);
      Extends(a, b, 32, 96);
      Extends(a, b, 96, 160);
      assert a == a[..160] && b == b[..160];
    case OfEquality(p) =>
      Extends(a, b, 0, 32);
      Extends(a, b, 32, 64);
      Extends(a, b, 64, 96);
      Extends(a, b, 96, 128);
      Extends(a, b, 128, 192);
      Extends(a, b, 192, 256);
      Extends(a, b, 256, 320);
      Extends(a, b, 320, 384);
      Extends(a, b, 384, 448);
      Extends(a, b, 448, 512);
      assert a == a[..512] && b == b[..512];
    case OfEquality2(p) =>
      Extends(a, b, 0, 32);
      Extends(a, b, 32, 64);
      Extends(a, b, 64, 96);
      Extends(a, b, 96, 160);
      Extends(a, b, 160, 224);
      Extends(a, b, 224, 288);
      Extends(a, b, 288, 352);
      assert a == a[..352] && b == b[..352];
    case OfApply(p) =>
      Extends(a, b, 0, 32);
      Extends(a, b, 32, 64);
      Extends(a, b, 64, 96);
      Extends(a, b, 96, 160);
      Extends(a, b, 160, 224);
      Extends(a, b, 224, 288);
      Extends(a, b, 288, 352);
      assert a == a[..352] && b == b[..352];
    case OfCommitment(p) =>
      Extends(a, b, 0, 32);
      Extends(a, b, 32, 64);
      Extends(a, b, 64, 96);
      Extends(a, b, 96, 160);
      Extends(a, b, 160, 224);
      Extends(a, b, 224, 288);
      assert a == a[..288] && b == b[..288];
    case OfPop(p) =>
      Extends(a, b, 0, 32);
      Extends(a, b, 32, 96);
      assert a == a[..96] && b == b[..96];
  }

  lemma LayoutIsEncoding(p: AnyProof, b: bytes)
    ensures WireLayout(p, b) <==> b == EncodeProof(p.View())
  {
    EncodedHasLayout(p);
    if WireLayout(p, b) {
      LayoutIsUnique(p, b, EncodeProof(p.View()));
    }
  }

  predicate IsWireProof(c: Curve, p: AnyProof)
  {
    IsWire(c, p.View(), Shape(p.Kind()).0, Shape(p.Kind()).1)
  }

  method Marshal(p: AnyProof) returns (buf: array<byte>)
    ensures fresh(buf) && WireLayout(p, buf[..]) && buf.Length == WireSize(p.Kind())
  {
    buf := MarshalProof(p.View());
    EncodedHasLayout(p);
  }

  /** For each proof type: accepts exactly the layouts of its well-formed proofs, each read as the proof laid out. */
  method Unmarshal(c: Curve, kind: Kind, data: bytes) returns (r: Result<AnyProof>)
    requires c.Valid() && FitsWire(c)
    ensures r.Success? ==> r.value.Kind() == kind && IsWireProof(c, r.value) && WireLayout(r.value, data)
    ensures r.Failure? ==> forall p: AnyProof :: p.Kind() == kind && IsWireProof(c, p) ==> !WireLayout(p, data)
    ensures r.Failure? ==> FirstUnreadable(c, data, Shape(kind).0, Shape(kind).1, r.error)
    ensures r.Failure? && r.error == WrongLength <==> |data| != WireSize(kind)
  {
    var slots := UnmarshalProof(c, data, Shape(kind).0, Shape(kind).1);
    match slots
    case Failure(error) =>
      forall p: AnyProof | p.Kind() == kind && IsWireProof(c, p) ensures !WireLayout(p, data) {
        LayoutIsEncoding(p, data);
      }
      r := Failure(error);
    case Success(pf) =>
      EncodedHasLayout(FromSlots(kind, pf));
      r := Success(FromSlots(kind, pf));
  }

  /** One byte string is the layout of one proof at most. */
  lemma AnyProofInjective(c: Curve, a: AnyProof, b: AnyProof, data: bytes)
    requires c.Valid() && FitsWire(c) && a.Kind() == b.Kind() && IsWireProof(c, a) && IsWireProof(c, b)
    requires WireLayout(a, data) && WireLayout(b, data)
    ensures a == b
  {
    LayoutIsEncoding(a, data);
    LayoutIsEncoding(b, data);
    EncodeProofInjective(c, a.View(), b.View(), Shape(a.Kind()).0, Shape(a.Kind()).1);
    var z, A, z', A' := a.View().responses, a.View().commitments, b.View().responses, b.View().commitments;
    assert forall i :: 0 <= i < |z| ==> z[i] == z'[i];
    assert forall i :: 0 <= i < |A| ==> A[i] == A'[i];
  }

  // ---------- public keys and ciphertexts ----------

  method UnmarshalPublicKey(c: Curve, data: bytes) returns (r: Result<Affine>)
    requires c.Valid() && FitsWire(c)
    ensures r.Success? ==> ValidPublicKey(c, r.value) && MarshalPoint(r.value) == data
    ensures r.Failure? ==> forall pk :: ValidPublicKey(c, pk) ==> MarshalPoint(pk) != data
    ensures r.Failure? && r.error == WrongLength <==> |data| != 64
    ensures r.Failure? && r.error == Degenerate <==> data == MarshalPoint(INFINITY)
  {
    if |data| != POINT_SIZE {
      return Failure(WrongLength);
    }
    var pk := PointSlot(c, data);
    forall P | c.OnCurve(P) ensures PointSlot(c, data) == Some(P) <==> MarshalPoint(P) == data {
      PointSlotExact(c, data, P);
    }
    if pk.None? {
      return Failure(BadPoint(0));
    }
    PointSlotExact(c, data, pk.value);
    if !ValidPublicKey(c, pk.value) {
      return Failure(Degenerate);
    }
    r := Success(pk.value);
  }

  function MarshalCiphertext(ct: Ciphertext): (b: bytes)
    ensures |b| == 2 * POINT_SIZE
  {
    MarshalPoint(ct.C1) + MarshalPoint(ct.C2)
  }

  lemma CiphertextSlots(c: Curve, data: bytes, ct: Ciphertext)
    requires c.Valid() && FitsWire(c) && |data| == 2 * POINT_SIZE
    ensures PointSlot(c, data[..64]) == Some(ct.C1) && PointSlot(c, data[64..]) == Some(ct.C2)
            <==> c.OnCurve(ct.C1) && c.OnCurve(ct.C2) && MarshalCiphertext(ct) == data
  {
    PointSlotExact(c, data[..64], ct.C1);
    PointSlotExact(c, data[64..], ct.C2);
    assert data == data[..64] + data[64..];
    if MarshalCiphertext(ct) == data {
      assert data[..64] == MarshalPoint(ct.C1) && data[64..] == MarshalPoint(ct.C2);
    }
  }

  /** Accepts exactly the encodings of valid ciphertexts: identity C1 is rejected, identity C2 is not. */
  method UnmarshalCiphertext(c: Curve, data: bytes) returns (r: Result<Ciphertext>)
    requires c.Valid() && FitsWire(c)
    ensures r.Success? ==> ValidCiphertext(c, r.value) && MarshalCiphertext(r.value) == data
    ensures r.Success? ==> MarshalPoint(r.value.C1) == data[..64] && MarshalPoint(r.value.C2) == data[64..]
    ensures r.Failure? ==> forall ct :: ValidCiphertext(c, ct) ==> MarshalCiphertext(ct) != data
    ensures r.Failure? && r.error == WrongLength <==> |data| != 128
    ensures r.Failure? && r.error == Degenerate
            <==> |data| == 128 && data[..64] == MarshalPoint(INFINITY) && PointSlot(c, data[64..]).Some?
  {
    if |data| != 2 * POINT_SIZE {
      return Failure(WrongLength);
    }
    forall ct: Ciphertext ensures PointSlot(c, data[..64]) == Some(ct.C1) && PointSlot(c, data[64..]) == Some(ct.C2)
                                  <==> c.OnCurve(ct.C1) && c.OnCurve(ct.C2) && MarshalCiphertext(ct) == data
    {
      CiphertextSlots(c, data, ct);
    }
    PointSlotExact(c, data[..64], INFINITY);
    var C1 := PointSlot(c, data[..64]);
    if C1.None? {
      return Failure(BadPoint(0));
    }
    var C2 := PointSlot(c, data[64..]);
    if C2.None? {
      return Failure(BadPoint(1));
    }
    var ct := Ciphertext(C1.value, C2.value);
    CiphertextSlots(c, data, ct);
    if !ValidCiphertext(c, ct) {
      return Failure(Degenerate);
    }
    r := Success(ct);
  }
}
