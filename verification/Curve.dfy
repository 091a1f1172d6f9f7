/**
 The group of points, as this library sees it. Affine and Jacobian values are plain coordinate
 triples; the curve membership test, the Jacobian addition and the normalisation to affine form
 belong to the curve library and are parameters. Curve.Valid states what is relied on: with the
 addition computed the way the source computes it (through Jacobian coordinates), the points on
 the curve form an abelian group of prime order q generated by G.
 */
module Curves {
  import opened Scalars

  datatype Affine = Affine(x: nat, y: nat)

  datatype Jacobian = Jacobian(X: nat, Y: nat, Z: nat)

  /** The point at infinity is the zero value of the affine type. */
  const INFINITY := Affine(0, 0)

  /** The zero value of the Jacobian type. */
  const ZERO_JACOBIAN := Jacobian(0, 0, 0)

  function FromAffine(P: Affine): Jacobian
  {
    if P == INFINITY then Jacobian(1, 1, 0) else Jacobian(P.x, P.y, 1)
  }

  datatype Curve = Curve(
    p: nat,                                          // modulus of the base field
    q: nat,                                          // order of the group
    G: Affine,                                       // generator
    isOnCurve: Affine -> bool,
    addJacobian: (Jacobian, Jacobian) -> Jacobian,
    toAffine: Jacobian -> Affine)
  {
    /** Holds for the point at infinity and for the affine solutions of the curve equation. */
    predicate OnCurve(P: Affine) { isOnCurve(P) }

    function JacAdd(a: Jacobian, b: Jacobian): Jacobian { addJacobian(a, b) }

    function Normalize(a: Jacobian): Affine { toAffine(a) }

    /** The sum of two affine points, computed in Jacobian coordinates. */
    function Plus(a: Affine, b: Affine): Affine
    {
      Normalize(JacAdd(FromAffine(a), FromAffine(b)))
    }

    function Neg(a: Affine): Affine
    {
      Affine(a.x, if 0 < a.y < p then p - a.y else 0)
    }

    function Minus(a: Affine, b: Affine): Affine { Plus(a, Neg(b)) }

    /** Scalar multiplication. */
    function Mul(k: nat, P: Affine): Affine
    {
      if k == 0 then INFINITY else Plus(Mul(k - 1, P), P)
    }

    ghost predicate OnCurve2(a: Affine, b: Affine) { OnCurve(a) && OnCurve(b) }

    ghost predicate OnCurve3(a: Affine, b: Affine, d: Affine) { OnCurve(a) && OnCurve(b) && OnCurve(d) }

    ghost predicate GeneratedByG(P: Affine)
    {
      exists k: nat :: k < q && P == Mul(k, G)
    }

    /** G generates the points on the curve, and has prime order q. */
    ghost predicate PrimeOrder()
    {
      && p > 0 && IsPrime(q)
      && OnCurve(INFINITY) && OnCurve(G) && G != INFINITY
      && Mul(q, G) == INFINITY
      && (forall a {:trigger GeneratedByG(a)} :: OnCurve(a) ==> GeneratedByG(a))
    }

    ghost predicate UnaryLaws()
    {
      && (forall a {:trigger OnCurve(a)} :: OnCurve(a) ==> a.x < p && a.y < p)
      && (forall a {:trigger Plus(INFINITY, a)} :: OnCurve(a) ==> Plus(INFINITY, a) == a)
      && (forall a {:trigger Neg(a)} :: OnCurve(a) ==> OnCurve(Neg(a)) && Plus(a, Neg(a)) == INFINITY)
    }

    ghost predicate BinaryLaws()
    {
      forall a, b {:trigger OnCurve2(a, b)} :: OnCurve2(a, b) ==> OnCurve(Plus(a, b)) && Plus(a, b) == Plus(b, a)
    }

    ghost predicate TernaryLaws()
    {
      forall a, b, d {:trigger OnCurve3(a, b, d)} ::
        OnCurve3(a, b, d) ==> Plus(Plus(a, b), d) == Plus(a, Plus(b, d))
    }

    /** Jacobian coordinates represent affine points, and adding them represents adding points. */
    ghost predicate JacobianLaws()
    {
      && Normalize(ZERO_JACOBIAN) == INFINITY
      && (forall a {:trigger FromAffine(a)} :: OnCurve(a) ==> Normalize(FromAffine(a)) == a)
      && (forall a, b {:trigger JacAdd(a, b), OnCurve2(Normalize(a), Normalize(b))} ::
            OnCurve2(Normalize(a), Normalize(b)) ==> Normalize(JacAdd(a, b)) == Plus(Normalize(a), Normalize(b)))
    }

    /** The laws. Each is triggered by the term or the hypothesis it is about. */
    ghost predicate Valid()
    {
      PrimeOrder() && UnaryLaws() && BinaryLaws() && TernaryLaws() && JacobianLaws()
    }
  }

  /** On the curve and not the identity. */
  predicate ProperPoint(c: Curve, P: Affine)
  {
    c.OnCurve(P) && P != INFINITY
  }

  predicate ValidPublicKey(c: Curve, pk: Affine)
  {
    ProperPoint(c, pk)
  }

  // ---------- group laws ----------

  lemma PlusClosed(c: Curve, a: Affine, b: Affine)
    requires c.Valid() && c.OnCurve(a) && c.OnCurve(b)
    ensures c.OnCurve(c.Plus(a, b))
  {
    assert c.OnCurve2(a, b);
  }

  lemma PlusCommutes(c: Curve, a: Affine, b: Affine)
    requires c.Valid() && c.OnCurve(a) && c.OnCurve(b)
    ensures c.Plus(a, b) == c.Plus(b, a)
  {
    assert c.OnCurve2(a, b);
  }

  lemma PlusAssociates(c: Curve, a: Affine, b: Affine, d: Affine)
    requires c.Valid() && c.OnCurve(a) && c.OnCurve(b) && c.OnCurve(d)
    ensures c.Plus(c.Plus(a, b), d) == c.Plus(a, c.Plus(b, d))
  {
    assert c.OnCurve3(a, b, d);
  }

  lemma PlusIdentity(c: Curve, a: Affine)
    requires c.Valid() && c.OnCurve(a)
    ensures c.Plus(INFINITY, a) == a && c.Plus(a, INFINITY) == a
  {
    PlusCommutes(c, a, INFINITY);
  }

  lemma NegIsInverse(c: Curve, a: Affine)
    requires c.Valid() && c.OnCurve(a)
    ensures c.OnCurve(c.Neg(a)) && c.Plus(a, c.Neg(a)) == INFINITY && c.Plus(c.Neg(a), a) == INFINITY
  {
    assert c.OnCurve(c.Neg(a));
    PlusCommutes(c, a, c.Neg(a));
  }

  /** (a + b) + (d + e) == (a + d) + (b + e) */
  lemma PlusInterchange(c: Curve, a: Affine, b: Affine, d: Affine, e: Affine)
    requires c.Valid() && c.OnCurve(a) && c.OnCurve(b) && c.OnCurve(d) && c.OnCurve(e)
    ensures c.Plus(c.Plus(a, b), c.Plus(d, e)) == c.Plus(c.Plus(a, d), c.Plus(b, e))
  {
    PlusClosed(c, d, e);
    PlusClosed(c, b, e);
    PlusAssociates(c, a, b, c.Plus(d, e));
    PlusAssociates(c, b, d, e);
    PlusCommutes(c, b, d);
    PlusAssociates(c, d, b, e);
    PlusAssociates(c, a, d, c.Plus(b, e));
  }

  lemma PlusCancels(c: Curve, a: Affine, b: Affine, d: Affine)
    requires c.Valid() && c.OnCurve(a) && c.OnCurve(b) && c.OnCurve(d)
    requires c.Plus(a, b) == c.Plus(a, d)
    ensures b == d
  {
    var n := c.Neg(a);
    NegIsInverse(c, a);
    PlusAssociates(c, n, a, b);
    PlusAssociates(c, n, a, d);
    PlusIdentity(c, b);
    PlusIdentity(c, d);
  }

  /** a == t - b exactly when a + b == t. */
  lemma MinusIff(c: Curve, t: Affine, b: Affine, a: Affine)
    requires c.Valid() && c.OnCurve(t) && c.OnCurve(b) && c.OnCurve(a)
    ensures c.OnCurve(c.Minus(t, b))
    ensures a == c.Minus(t, b) <==> c.Plus(a, b) == t
  {
    var n := c.Neg(b);
    NegIsInverse(c, b);
    PlusClosed(c, t, n);
    PlusAssociates(c, t, n, b);
    PlusAssociates(c, a, b, n);
    PlusIdentity(c, t);
    PlusIdentity(c, a);
  }

  lemma NegOfSum(c: Curve, a: Affine, b: Affine)
    requires c.Valid() && c.OnCurve(a) && c.OnCurve(b)
    ensures c.Neg(c.Plus(a, b)) == c.Plus(c.Neg(a), c.Neg(b))
  {
    NegIsInverse(c, a);
    NegIsInverse(c, b);
    PlusClosed(c, a, b);
    NegIsInverse(c, c.Plus(a, b));
    PlusClosed(c, c.Neg(a), c.Neg(b));
    PlusInterchange(c, a, b, c.Neg(a), c.Neg(b));
    PlusIdentity(c, INFINITY);
    PlusCancels(c, c.Plus(a, b), c.Neg(c.Plus(a, b)), c.Plus(c.Neg(a), c.Neg(b)));
  }

  // ---------- scalar multiplication ----------

  lemma {:induction false} MulClosed(c: Curve, k: nat, P: Affine)
    requires c.Valid() && c.OnCurve(P)
    ensures c.OnCurve(c.Mul(k, P))
  {
    if k > 0 {
      MulClosed(c, k - 1, P);
      PlusClosed(c, c.Mul(k - 1, P), P);
    }
  }

  lemma MulOne(c: Curve, P: Affine)
    requires c.Valid() && c.OnCurve(P)
    ensures c.Mul(1, P) == P
  {
    PlusIdentity(c, P);
    assert c.Mul(1, P) == c.Plus(c.Mul(0, P), P);
  }

  lemma {:induction false} MulInfinity(c: Curve, k: nat)
    requires c.Valid()
    ensures c.Mul(k, INFINITY) == INFINITY
  {
    if k > 0 {
      MulInfinity(c, k - 1);
      PlusIdentity(c, INFINITY);
    }
  }

  lemma {:induction false} MulAdds(c: Curve, a: nat, b: nat, P: Affine)
    requires c.Valid() && c.OnCurve(P)
    ensures c.Mul(a + b, P) == c.Plus(c.Mul(a, P), c.Mul(b, P))
  {
    MulClosed(c, a, P);
    if b == 0 {
      PlusIdentity(c, c.Mul(a, P));
    } else {
      MulAdds(c, a, b - 1, P);
      MulClosed(c, b - 1, P);
      PlusAssociates(c, c.Mul(a, P), c.Mul(b - 1, P), P);
      assert c.Mul(a + b, P) == c.Plus(c.Mul(a + b - 1, P), P);
    }
  }

  lemma MulAddsTo(c: Curve, a: nat, b: nat, sum: nat, P: Affine)
    requires c.Valid() && c.OnCurve(P) && sum == a + b
    ensures c.Mul(sum, P) == c.Plus(c.Mul(a, P), c.Mul(b, P))
  {
    MulAdds(c, a, b, P);
  }

  lemma {:induction false} MulDistributes(c: Curve, k: nat, P: Affine, Q: Affine)
    requires c.Valid() && c.OnCurve(P) && c.OnCurve(Q)
    ensures c.Mul(k, c.Plus(P, Q)) == c.Plus(c.Mul(k, P), c.Mul(k, Q))
  {
    if k == 0 {
      PlusIdentity(c, INFINITY);
    } else {
      MulDistributes(c, k - 1, P, Q);
      MulClosed(c, k - 1, P);
      MulClosed(c, k - 1, Q);
      PlusInterchange(c, c.Mul(k - 1, P), c.Mul(k - 1, Q), P, Q);
    }
  }

  lemma {:induction false} MulMultiplies(c: Curve, a: nat, b: nat, P: Affine)
    requires c.Valid() && c.OnCurve(P)
    ensures c.Mul(a * b, P) == c.Mul(a, c.Mul(b, P))
  {
    if a > 0 {
      MulMultiplies(c, a - 1, b, P);
      assert a * b == (a - 1) * b + b;
      assert (a - 1) * b >= 0;
      MulAdds(c, (a - 1) * b, b, P);
    }
  }

  /** Every point has order dividing q. */
  lemma MulOrder(c: Curve, P: Affine)
    requires c.Valid() && c.OnCurve(P)
    ensures c.Mul(c.q, P) == INFINITY
  {
    assert c.GeneratedByG(P);
    var k: nat :| k < c.q && P == c.Mul(k, c.G);
    MulMultiplies(c, c.q, k, c.G);
    MulMultiplies(c, k, c.q, c.G);
    assert c.q * k == k * c.q;
    MulInfinity(c, k);
  }

  /** Scalars act modulo q. */
  lemma MulMod(c: Curve, a: nat, P: Affine)
    requires c.Valid() && c.OnCurve(P)
    ensures c.Mul(a % c.q, P) == c.Mul(a, P)
  {
    var k, r := Quotient(a, c.q);
    DivModIs(a, c.q, k, r);
    assert k * c.q >= 0;
    MulAddsTo(c, k * c.q, r, a, P);
    MulMultiplies(c, k, c.q, P);
    MulOrder(c, P);
    MulInfinity(c, k);
    MulClosed(c, r, P);
    PlusIdentity(c, c.Mul(r, P));
  }

  lemma MulAddQ(c: Curve, a: nat, b: nat, P: Affine)
    requires c.Valid() && c.OnCurve(P)
    ensures c.Mul(AddQ(c.q, a, b), P) == c.Plus(c.Mul(a, P), c.Mul(b, P))
  {
    MulMod(c, a + b, P);
    MulAdds(c, a, b, P);
  }

  lemma MulMulQ(c: Curve, a: nat, b: nat, P: Affine)
    requires c.Valid() && c.OnCurve(P)
    ensures c.Mul(MulQ(c.q, a, b), P) == c.Mul(a, c.Mul(b, P))
  {
    assert a * b >= 0;
    MulMod(c, a * b, P);
    MulMultiplies(c, a, b, P);
  }

  lemma MulCommutes(c: Curve, a: nat, b: nat, P: Affine)
    requires c.Valid() && c.OnCurve(P)
    ensures c.Mul(a, c.Mul(b, P)) == c.Mul(b, c.Mul(a, P))
  {
    MulMultiplies(c, a, b, P);
    MulMultiplies(c, b, a, P);
    assert a * b == b * a;
  }

  lemma {:induction false} MulNeg(c: Curve, k: nat, P: Affine)
    requires c.Valid() && c.OnCurve(P)
    ensures c.Mul(k, c.Neg(P)) == c.Neg(c.Mul(k, P))
  {
    if k == 0 {
      NegIsInverse(c, INFINITY);
      PlusIdentity(c, c.Neg(INFINITY));
    } else {
      MulNeg(c, k - 1, P);
      MulClosed(c, k - 1, P);
      NegOfSum(c, c.Mul(k - 1, P), P);
    }
  }

  /** Multiples of one point subtract like their scalars. */
  lemma MulSubQ(c: Curve, a: nat, b: nat, P: Affine)
    requires c.Valid() && c.OnCurve(P) && a < c.q && b < c.q
    ensures c.Mul(SubQ(c.q, a, b), P) == c.Minus(c.Mul(a, P), c.Mul(b, P))
  {
    var d := SubQ(c.q, a, b);
    MulClosed(c, a, P);
    MulClosed(c, b, P);
    MulClosed(c, d, P);
    MulAddQ(c, b, d, P);
    PlusCommutes(c, c.Mul(b, P), c.Mul(d, P));
    MinusIff(c, c.Mul(a, P), c.Mul(b, P), c.Mul(d, P));
  }

  /** (a + b) - (d + e) == (a - d) + (b - e) */
  lemma MinusInterchange(c: Curve, a: Affine, b: Affine, d: Affine, e: Affine)
    requires c.Valid() && c.OnCurve(a) && c.OnCurve(b) && c.OnCurve(d) && c.OnCurve(e)
    ensures c.Minus(c.Plus(a, b), c.Plus(d, e)) == c.Plus(c.Minus(a, d), c.Minus(b, e))
  {
    NegOfSum(c, d, e);
    NegIsInverse(c, d);
    NegIsInverse(c, e);
    PlusInterchange(c, a, b, c.Neg(d), c.Neg(e));
  }

  /** A scalar can be divided out again: inverse(k) * (k * P) == P. */
  lemma MulInverse(c: Curve, k: nat, P: Affine)
    requires c.Valid() && c.OnCurve(P) && 0 < k < c.q
    ensures c.Mul(Inverse(c.q, k), c.Mul(k, P)) == P
  {
    MulMulQ(c, Inverse(c.q, k), k, P);
    MulOne(c, P);
  }

  /** Multiplication of a fixed non-identity point is injective on canonical scalars. */
  lemma MulInjective(c: Curve, a: nat, b: nat, P: Affine)
    requires c.Valid() && c.OnCurve(P) && P != INFINITY
    requires a < c.q && b < c.q && c.Mul(a, P) == c.Mul(b, P)
    ensures a == b
  {
    var d := SubQ(c.q, a, b);
    MulAddQ(c, b, d, P);
    MulClosed(c, b, P);
    MulClosed(c, d, P);
    PlusIdentity(c, c.Mul(b, P));
    PlusCancels(c, c.Mul(b, P), c.Mul(d, P), INFINITY);
    if d != 0 {
      MulInverse(c, d, P);
      MulInfinity(c, Inverse(c.q, d));
      assert false;
    }
  }

  /** Only multiples of q take G to the identity. */
  lemma ZeroIffIdentity(c: Curve, k: nat)
    requires c.Valid()
    ensures c.Mul(k, c.G) == INFINITY <==> k % c.q == 0
  {
    MulMod(c, k, c.G);
    if c.Mul(k, c.G) == INFINITY {
      MulInjective(c, k % c.q, 0, c.G);
    }
  }

  /** In x * A + y * B with y fixed, x is determined; B need only be on the curve. */
  lemma FirstScalarUnique(c: Curve, x: nat, x': nat, A: Affine, y: nat, B: Affine)
    requires c.Valid() && c.OnCurve(A) && A != INFINITY && c.OnCurve(B) && x < c.q && x' < c.q
    requires c.Plus(c.Mul(x, A), c.Mul(y, B)) == c.Plus(c.Mul(x', A), c.Mul(y, B))
    ensures x == x'
  {
    MulClosed(c, x, A);
    MulClosed(c, x', A);
    MulClosed(c, y, B);
    PlusCommutes(c, c.Mul(x, A), c.Mul(y, B));
    PlusCommutes(c, c.Mul(x', A), c.Mul(y, B));
    PlusCancels(c, c.Mul(y, B), c.Mul(x, A), c.Mul(x', A));
    MulInjective(c, x, x', A);
  }

  lemma SecondScalarUnique(c: Curve, P: Affine, y: nat, y': nat, B: Affine)
    requires c.Valid() && c.OnCurve(P) && c.OnCurve(B) && B != INFINITY && y < c.q && y' < c.q
    requires c.Plus(P, c.Mul(y, B)) == c.Plus(P, c.Mul(y', B))
    ensures y == y'
  {
    MulClosed(c, y, B);
    MulClosed(c, y', B);
    PlusCancels(c, P, c.Mul(y, B), c.Mul(y', B));
    MulInjective(c, y, y', B);
  }

  /** The discrete logarithm of a point to the base of any non-identity point. */
  ghost function Log(c: Curve, B: Affine, P: Affine): (k: nat)
    requires c.Valid() && c.OnCurve(P) && c.OnCurve(B) && B != INFINITY
    ensures k < c.q && c.Mul(k, B) == P
  {
    LogExists(c, B, P);
    var k: nat :| k < c.q && c.Mul(k, B) == P;
    k
  }

  /** In a group of prime order every point is a multiple of every non-identity point. */
  lemma LogExists(c: Curve, B: Affine, P: Affine)
    requires c.Valid() && c.OnCurve(P) && c.OnCurve(B) && B != INFINITY
    ensures exists k: nat :: k < c.q && c.Mul(k, B) == P
  {
    assert c.GeneratedByG(P) && c.GeneratedByG(B);
    var k: nat :| k < c.q && P == c.Mul(k, c.G);
    var b: nat :| b < c.q && B == c.Mul(b, c.G);
    assert b != 0;
    MulInverse(c, b, c.G);
    var i := Inverse(c.q, b);
    MulMulQ(c, k, i, B);
    assert c.Mul(MulQ(c.q, k, i), B) == P;
  }
}
