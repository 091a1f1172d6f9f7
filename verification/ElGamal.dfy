/** Encryption, homomorphic addition and subtraction, and decryption through a discrete-log solver. */
module ElGamal {
  import opened Scalars
  import opened Curves
  import opened Ciphertexts
  import opened DiscreteLogs
  import opened DecryptionTables
  import opened SplitDecryption

  /** Encrypts amount under pk with randomness r, or fails on an invalid key. */
  function EncryptWithRandomness(c: Curve, amount: uint64, pk: Affine, r: nat): Option<Ciphertext>
  {
    if !ValidPublicKey(c, pk) then None
    else Some(Ciphertext(c.Mul(r, c.G), c.Plus(c.Mul(amount, c.G), c.Mul(r, pk))))
  }

  function Add(c: Curve, a: Ciphertext, b: Ciphertext): Ciphertext
  {
    Ciphertext(c.Plus(a.C1, b.C1), c.Plus(a.C2, b.C2))
  }

  function Sub(c: Curve, a: Ciphertext, b: Ciphertext): Ciphertext
  {
    Add(c, a, Ciphertext(c.Neg(b.C1), c.Neg(b.C2)))
  }

  /** A solver to the base G. */
  datatype Decryptor = Plain(table: DecryptionTable) | Split(split: SplitDecryptionTable)
  {
    ghost predicate Ready(c: Curve)
      reads if Plain? then {table} else {split.hiTable}
    {
      && (match this
          case Plain(t) => t.Valid() && t.c == c && t.base == c.G
          case Split(s) => s.Valid() && s.c == c)
      && Range() <= c.q
    }

    ghost function Range(): nat
    {
      match this
      case Plain(t) => t.Range()
      case Split(s) => s.Range()
    }

    /** Either solver answers Solve over its own range. */
    method DiscreteLog(c: Curve, mG: Affine) returns (r: Option<uint64>)
      requires Ready(c)
      ensures c.OnCurve(mG) ==> r == Solve(c, Range(), mG)
    {
      ghost var hi, lo, lookups;
      match this
      case Plain(t) =>
        r, lookups := t.DiscreteLog(mG);
        HalfBitsBound(t.halfBits);
        SolveIsSearch(c, t.Range(), mG);
      case Split(s) =>
        r, hi, lo, lookups := s.DiscreteLog(mG);
    }
  }

  method Decrypt(c: Curve, ct: Ciphertext, sk: nat, table: Decryptor) returns (r: Option<uint64>)
    requires table.Ready(c)
    ensures c.OnCurve(ct.C1) && c.OnCurve(ct.C2) ==> r == Solve(c, table.Range(), Unmask(c, ct, sk))
  {
    if c.OnCurve(ct.C1) && c.OnCurve(ct.C2) {
      MulClosed(c, sk, ct.C1);
      MinusIff(c, ct.C2, c.Mul(sk, ct.C1), INFINITY);
    }
    var skC1 := c.Mul(sk, ct.C1);
    var negSkC1 := c.Neg(skC1);
    var mGJac := FromAffine(ct.C2);
    mGJac := c.JacAdd(mGJac, FromAffine(negSkC1));
    var mG := c.Normalize(mGJac);
    r := table.DiscreteLog(c, mG);
  }

  // ---------- decryption undoes encryption ----------

  lemma EncryptsIsOnCurve(c: Curve, ct: Ciphertext, pk: Affine, m: nat, r: nat)
    requires c.Valid() && c.OnCurve(pk) && Encrypts(c, ct, pk, m, r)
    ensures c.OnCurve(ct.C1) && c.OnCurve(ct.C2)
  {
    MulClosed(c, r, c.G);
    MulClosed(c, m, c.G);
    MulClosed(c, r, pk);
    PlusClosed(c, c.Mul(m, c.G), c.Mul(r, pk));
  }

  /**
   Encryption fails exactly for a key off the curve or the identity; otherwise it gives the documented
   pair, which leaves amount * G in the clear only when the randomness is zero modulo q.
   */
  lemma EncryptionHides(c: Curve, amount: uint64, pk: Affine, r: nat)
    requires c.Valid()
    ensures var ct := EncryptWithRandomness(c, amount, pk, r);
            && (ct.None? <==> !c.OnCurve(pk) || pk == INFINITY)
            && (ct.Some? ==> ct.value.C1 == c.Mul(r, c.G))
            && (ct.Some? ==> ct.value.C2 == c.Plus(c.Mul(amount, c.G), c.Mul(r, pk)))
            && (ct.Some? ==> (ct.value.C2 == c.Mul(amount, c.G) <==> r % c.q == 0))
  {
    var ct := EncryptWithRandomness(c, amount, pk, r);
    if ct.Some? {
      var m, mask := c.Mul(amount, c.G), c.Mul(r, pk);
      MulClosed(c, amount, c.G);
      MulClosed(c, r, pk);
      PlusIdentity(c, m);
      if ct.value.C2 == m {
        PlusCancels(c, m, mask, INFINITY);
      }
      MulMod(c, r, pk);
      if mask == INFINITY {
        MulInjective(c, r % c.q, 0, pk);
      }
    }
  }

  /** The secret key removes the mask, whatever the randomness. */
  lemma UnmaskEncryption(c: Curve, ct: Ciphertext, pk: Affine, sk: nat, m: nat, r: nat)
    requires c.Valid() && pk == c.Mul(sk, c.G) && Encrypts(c, ct, pk, m, r)
    ensures Unmask(c, ct, sk) == c.Mul(m, c.G)
  {
    MulClosed(c, sk, c.G);
    EncryptsIsOnCurve(c, ct, pk, m, r);
    MulCommutes(c, r, sk, c.G);
    MulClosed(c, sk, ct.C1);
    MulClosed(c, m, c.G);
    MinusIff(c, ct.C2, c.Mul(sk, ct.C1), c.Mul(m, c.G));
  }

  /** A ciphertext has one plaintext: two openings under the same key agree modulo q. */
  lemma PlaintextUnique(c: Curve, ct: Ciphertext, pk: Affine, m: nat, r: nat, m': nat, r': nat)
    requires c.Valid() && c.OnCurve(pk) && m < c.q && m' < c.q && r < c.q && r' < c.q
    requires Encrypts(c, ct, pk, m, r) && Encrypts(c, ct, pk, m', r')
    ensures m == m' && r == r'
  {
    MulInjective(c, r, r', c.G);
    MulClosed(c, m, c.G);
    MulClosed(c, m', c.G);
    MulClosed(c, r, pk);
    PlusCommutes(c, c.Mul(m, c.G), c.Mul(r, pk));
    PlusCommutes(c, c.Mul(m', c.G), c.Mul(r, pk));
    PlusCancels(c, c.Mul(r, pk), c.Mul(m, c.G), c.Mul(m', c.G));
    MulInjective(c, m, m', c.G);
  }

  /** A fresh ciphertext passes validation exactly when its randomness is nonzero; 0 with randomness 0 never does. */
  lemma FreshValidIff(c: Curve, amount: uint64, pk: Affine, r: nat)
    requires c.Valid() && ValidPublicKey(c, pk)
    ensures ValidCiphertext(c, EncryptWithRandomness(c, amount, pk, r).value) <==> r % c.q != 0
  {
    ZeroIffIdentity(c, r);
    EncryptsIsOnCurve(c, EncryptWithRandomness(c, amount, pk, r).value, pk, amount, r);
  }

  // ---------- homomorphic runs ----------

  lemma AddEncrypts(c: Curve, pk: Affine, a: Ciphertext, m: nat, r: nat, b: Ciphertext, n: nat, s: nat)
    requires c.Valid() && c.OnCurve(pk) && Encrypts(c, a, pk, m, r) && Encrypts(c, b, pk, n, s)
    ensures Encrypts(c, Add(c, a, b), pk, AddQ(c.q, m, n), AddQ(c.q, r, s))
  {
    MulAddQ(c, m, n, c.G);
    MulAddQ(c, r, s, c.G);
    MulAddQ(c, r, s, pk);
    MulClosed(c, m, c.G);
    MulClosed(c, n, c.G);
    MulClosed(c, r, pk);
    MulClosed(c, s, pk);
    PlusInterchange(c, c.Mul(m, c.G), c.Mul(r, pk), c.Mul(n, c.G), c.Mul(s, pk));
  }

  lemma SubEncrypts(c: Curve, pk: Affine, a: Ciphertext, m: nat, r: nat, b: Ciphertext, n: nat, s: nat)
    requires c.Valid() && c.OnCurve(pk) && Encrypts(c, a, pk, m, r) && Encrypts(c, b, pk, n, s)
    requires m < c.q && r < c.q && n < c.q && s < c.q
    ensures Encrypts(c, Sub(c, a, b), pk, SubQ(c.q, m, n), SubQ(c.q, r, s))
  {
    MulSubQ(c, m, n, c.G);
    MulSubQ(c, r, s, c.G);
    MulSubQ(c, r, s, pk);
    MulClosed(c, m, c.G);
    MulClosed(c, n, c.G);
    MulClosed(c, r, pk);
    MulClosed(c, s, pk);
    MinusInterchange(c, c.Mul(m, c.G), c.Mul(r, pk), c.Mul(n, c.G), c.Mul(s, pk));
  }

  /** Any run of additions and subtractions over fresh encryptions. */
  datatype Expression =
    | Fresh(amount: uint64, r: nat)
    | Sum(left: Expression, right: Expression)
    | Difference(left: Expression, right: Expression)
  {
    function Total(): int
    {
      match this
      case Fresh(amount, _) => amount
      case Sum(a, b) => a.Total() + b.Total()
      case Difference(a, b) => a.Total() - b.Total()
    }

    function TotalRandomness(): int
    {
      match this
      case Fresh(_, r) => r
      case Sum(a, b) => a.TotalRandomness() + b.TotalRandomness()
      case Difference(a, b) => a.TotalRandomness() - b.TotalRandomness()
    }

    function Evaluate(c: Curve, pk: Affine): Ciphertext
      requires ValidPublicKey(c, pk)
    {
      match this
      case Fresh(amount, r) => EncryptWithRandomness(c, amount, pk, r).value
      case Sum(a, b) => Add(c, a.Evaluate(c, pk), b.Evaluate(c, pk))
      case Difference(a, b) => Sub(c, a.Evaluate(c, pk), b.Evaluate(c, pk))
    }
  }

  /** ct encrypts the integer t with the integer randomness u, both modulo q. */
  ghost predicate EncryptsTotal(c: Curve, ct: Ciphertext, pk: Affine, t: int, u: int)
    requires c.q > 0
  {
    Encrypts(c, ct, pk, ModQ(c.q, t), ModQ(c.q, u))
  }

  lemma FreshTotal(c: Curve, pk: Affine, amount: uint64, r: nat)
    requires c.Valid() && ValidPublicKey(c, pk)
    ensures EncryptsTotal(c, EncryptWithRandomness(c, amount, pk, r).value, pk, amount, r)
  {
    MulMod(c, amount, c.G);
    MulMod(c, r, c.G);
    MulMod(c, r, pk);
  }

  lemma SumTotal(c: Curve, pk: Affine, a: Ciphertext, t: int, u: int, b: Ciphertext, t': int, u': int,
                 total: int, randomness: int)
    requires c.Valid() && c.OnCurve(pk) && EncryptsTotal(c, a, pk, t, u) && EncryptsTotal(c, b, pk, t', u')
    requires total == t + t' && randomness == u + u'
    ensures EncryptsTotal(c, Add(c, a, b), pk, total, randomness)
  {
    ModQAdds(c.q, t, t');
    ModQAdds(c.q, u, u');
    AddEncrypts(c, pk, a, ModQ(c.q, t), ModQ(c.q, u), b, ModQ(c.q, t'), ModQ(c.q, u'));
  }

  lemma DifferenceTotal(c: Curve, pk: Affine, a: Ciphertext, t: int, u: int, b: Ciphertext, t': int, u': int,
                        total: int, randomness: int)
    requires c.Valid() && c.OnCurve(pk) && EncryptsTotal(c, a, pk, t, u) && EncryptsTotal(c, b, pk, t', u')
    requires total == t - t' && randomness == u - u'
    ensures EncryptsTotal(c, Sub(c, a, b), pk, total, randomness)
  {
    ModQSubtracts(c.q, t, t');
    ModQSubtracts(c.q, u, u');
    SubEncrypts(c, pk, a, ModQ(c.q, t), ModQ(c.q, u), b, ModQ(c.q, t'), ModQ(c.q, u'));
  }

  /** A run encrypts the signed total of its amounts with the signed total of its randomness, modulo q. */
  lemma {:induction false} RunEncrypts(c: Curve, pk: Affine, e: Expression)
    requires c.Valid() && ValidPublicKey(c, pk)
    ensures EncryptsTotal(c, e.Evaluate(c, pk), pk, e.Total(), e.TotalRandomness())
  {
    match e
    case Fresh(amount, r) =>
      FreshTotal(c, pk, amount, r);
    case Sum(a, b) =>
      RunEncrypts(c, pk, a);
      RunEncrypts(c, pk, b);
      SumTotal(c, pk, a.Evaluate(c, pk), a.Total(), a.TotalRandomness(),
               b.Evaluate(c, pk), b.Total(), b.TotalRandomness(), e.Total(), e.TotalRandomness());
    case Difference(a, b) =>
      RunEncrypts(c, pk, a);
      RunEncrypts(c, pk, b);
      DifferenceTotal(c, pk, a.Evaluate(c, pk), a.Total(), a.TotalRandomness(),
                      b.Evaluate(c, pk), b.Total(), b.TotalRandomness(), e.Total(), e.TotalRandomness());
  }

  /**
   Decrypting a run: the total modulo q is found exactly when it lies in the solver's range. A total
   in range comes back modulo 2^64; a negative total, unless within the range of -q, is an error.
   */
  lemma RunDecrypts(c: Curve, pk: Affine, sk: nat, e: Expression, range: nat)
    requires c.Valid() && pk == c.Mul(sk, c.G) && ValidPublicKey(c, pk) && range <= c.q
    ensures var t, found := e.Total(), Solve(c, range, Unmask(c, e.Evaluate(c, pk), sk));
            && found == (if ModQ(c.q, t) < range then Some(ModQ(c.q, t) % TWO64) else None)
            && (0 <= t < range ==> found == Some(t % TWO64))
            && (range - c.q <= t < 0 ==> found == None)
  {
    var t := e.Total();
    RunEncrypts(c, pk, e);
    UnmaskEncryption(c, e.Evaluate(c, pk), pk, sk, ModQ(c.q, t), ModQ(c.q, e.TotalRandomness()));
    SolveMultiple(c, range, ModQ(c.q, t));
    DivModIs(ModQ(c.q, t), c.q, 0, ModQ(c.q, t));
    ModQSmall(c.q, t);
  }
}
