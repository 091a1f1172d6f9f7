/** ElGamal ciphertexts and their validation. */
module Ciphertexts {
  import opened Curves

  datatype Ciphertext = Ciphertext(C1: Affine, C2: Affine)

  /** Both parts are on the curve and C1 is not the identity; C2 may be. */
  predicate ValidCiphertext(c: Curve, ct: Ciphertext)
  {
    c.OnCurve(ct.C1) && c.OnCurve(ct.C2) && ct.C1 != INFINITY
  }

  /** ct encrypts m under pk with randomness r. */
  ghost predicate Encrypts(c: Curve, ct: Ciphertext, pk: Affine, m: nat, r: nat)
  {
    ct.C1 == c.Mul(r, c.G) && ct.C2 == c.Plus(c.Mul(m, c.G), c.Mul(r, pk))
  }

  /** What decryption with sk leaves: C2 - sk * C1. */
  function Unmask(c: Curve, ct: Ciphertext, sk: nat): Affine
  {
    c.Minus(ct.C2, c.Mul(sk, ct.C1))
  }
}
