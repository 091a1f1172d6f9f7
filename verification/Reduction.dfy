/** How often the reduction of a 256-bit digest modulo the group order hits each residue. */
module Reduction {
  import opened Scalars

  /** The number of 256-bit digests. */
  const DIGESTS: nat := 0x1_0000_0000_0000_0000_0000_0000_0000_0000_0000_0000_0000_0000_0000_0000_0000_0000

  /** The order of the BN254 group. */
  const BN254_ORDER: nat := 21888242871839275222246405745257275088548364400416034343698204186575808495617

  /** The numbers below N that reduce to e. */
  ghost function Hits(N: nat, q: nat, e: nat): set<nat>
    requires q > 0
  {
    set h: nat | h < N && h % q == e
  }

  /** Every residue is hit N / q times, and the residues below N % q once more. */
  lemma {:induction false} HitCount(N: nat, q: nat, e: nat)
    requires e < q
    ensures |Hits(N, q, e)| == N / q + (if e < N % q then 1 else 0)
  {
    if N == 0 {
      assert Hits(0, q, e) == {};
      DivModIs(0, q, 0, 0);
    } else {
      var M := N - 1;
      HitCount(M, q, e);
      Successor(M, q);
      if M % q == e {
        assert Hits(N, q, e) == Hits(M, q, e) + {M};
      } else {
        assert Hits(N, q, e) == Hits(M, q, e);
      }
    }
  }

  lemma Successor(M: nat, q: nat)
    requires q > 0
    ensures M % q < q - 1 ==> (M + 1) / q == M / q && (M + 1) % q == M % q + 1
    ensures M % q == q - 1 ==> (M + 1) / q == M / q + 1 && (M + 1) % q == 0
  {
    var k, r := M / q, M % q;
    assert M == k * q + r by { DivMod(M, q); }
    if r < q - 1 {
      DivModIs(M + 1, q, k, r + 1);
    } else {
      assert (k + 1) * q == k * q + q;
      DivModIs(M + 1, q, k + 1, 0);
    }
  }

  /**
   For the deployed order each residue is hit five times, and six times exactly below 2^256 - 5q,
   which is 0.2193 * 2^254 (the source's comment rounds it to 0.216 * 2^254).
   */
  lemma ChallengeBias(e: nat)
    requires e < BN254_ORDER
    ensures |Hits(DIGESTS, BN254_ORDER, e)| == if e < DIGESTS - 5 * BN254_ORDER then 6 else 5
    ensures 2193 * (DIGESTS / 4) < 10000 * (DIGESTS - 5 * BN254_ORDER) < 2194 * (DIGESTS / 4)
  {
    HitCount(DIGESTS, BN254_ORDER, e);
    DivModIs(DIGESTS, BN254_ORDER, 5, DIGESTS - 5 * BN254_ORDER);
  }
}
