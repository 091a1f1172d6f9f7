/** The canonical byte forms of scalars (32 bytes) and points (64 bytes). */
module Encoding {
  import opened Bytes
  import opened Curves
  import opened Reduction

  /** The deployed moduli leave the two format bits of a coordinate's first byte clear. */
  ghost predicate FitsWire(c: Curve)
  {
    c.p <= 64 * Pow256(31) && c.q <= Pow256(32)
  }

  /** The modulus of the BN254 base field. */
  const BN254_BASE: nat := 21888242871839275222246405745257275088696311157297823662689037894645226208583

  lemma DeployedFitsWire(c: Curve)
    requires c.p == BN254_BASE && c.q == BN254_ORDER
    ensures FitsWire(c)
  {
    Pow256Values();
  }

  function MarshalScalar(s: nat): (b: bytes)
    ensures |b| == 32
  {
    ToBigEndian(s, 32)
  }

  /** Uncompressed form: both coordinates, big-endian. The identity is 64 zero bytes. */
  function MarshalPoint(P: Affine): (b: bytes)
    ensures |b| == 64
  {
    ToBigEndian(P.x, 32) + ToBigEndian(P.y, 32)
  }

  /** x comes first, and each coordinate has its most significant byte first. */
  lemma PointBytes(P: Affine, i: nat)
    requires i < 32
    ensures MarshalPoint(P)[31 - i] == P.x / Pow256(i) % 256
    ensures MarshalPoint(P)[63 - i] == P.y / Pow256(i) % 256
  {
    BigEndianAt(P.x, 32, i);
    BigEndianAt(P.y, 32, i);
  }

  /** A scalar has its most significant byte first. */
  lemma ScalarBytes(s: nat, i: nat)
    requires i < 32
    ensures MarshalScalar(s)[31 - i] == s / Pow256(i) % 256
  {
    BigEndianAt(s, 32, i);
  }

  /** Coordinates that are field elements. */
  predicate Reduced(c: Curve, P: Affine)
  {
    P.x < c.p && P.y < c.p
  }

  lemma ReducedFits(c: Curve, P: Affine)
    requires FitsWire(c) && Reduced(c, P)
    ensures P.x < 64 * Pow256(31) && P.y < Pow256(32) && P.x < Pow256(32)
  {
    Pow256Values();
  }

  lemma MarshalPointInjective(c: Curve, P: Affine, Q: Affine)
    requires FitsWire(c) && Reduced(c, P) && Reduced(c, Q)
    requires MarshalPoint(P) == MarshalPoint(Q)
    ensures P == Q
  {
    ReducedFits(c, P);
    ReducedFits(c, Q);
    assert MarshalPoint(P)[..32] == ToBigEndian(P.x, 32) && MarshalPoint(P)[32..] == ToBigEndian(P.y, 32);
    assert MarshalPoint(Q)[..32] == ToBigEndian(Q.x, 32) && MarshalPoint(Q)[32..] == ToBigEndian(Q.y, 32);
    BigEndianInjective(P.x, Q.x, 32);
    BigEndianInjective(P.y, Q.y, 32);
  }
}
