/**
 The laws of Curve.Valid are consistent, for every prime order: the integers modulo a prime q,
 with the number i stored as the coordinates (0, i), satisfy all of them. Nothing else is proved
 from this instance.
 */
module CurveInstance {
  import opened Scalars
  import opened Curves

  function Residue(q: nat, a: Jacobian): (i: nat)
    requires q > 0
    ensures i < q
  {
    if a.Z != 0 && a.Y < q then a.Y else 0
  }

  function Sum(q: nat, i: nat, j: nat): (k: nat)
    requires i < q && j < q
    ensures k < q
  {
    if i + j < q then i + j else i + j - q
  }

  function Instance(q: nat): Curve
    requires q > 1
  {
    Curve(q, q, Affine(0, 1), (P: Affine) => P.x == 0 && P.y < q,
          (a: Jacobian, b: Jacobian) => Jacobian(0, Sum(q, Residue(q, a), Residue(q, b)), 1),
          (a: Jacobian) => Affine(0, Residue(q, a)))
  }

  lemma PlusAddsResidues(q: nat, i: nat, j: nat)
    requires 1 < q && i < q && j < q
    ensures Instance(q).Plus(Affine(0, i), Affine(0, j)) == Affine(0, Sum(q, i, j))
  {
  }

  lemma {:induction false} MultiplesOfOne(q: nat, k: nat)
    requires 1 < q && k <= q
    ensures Instance(q).Mul(k, Affine(0, 1)) == Affine(0, if k == q then 0 else k)
  {
    if k > 0 {
      MultiplesOfOne(q, k - 1);
      PlusAddsResidues(q, k - 1, 1);
    }
  }

  lemma PrimeOrderHolds(q: nat)
    requires IsPrime(q)
    ensures Instance(q).PrimeOrder()
  {
    MultiplesOfOne(q, q);
    forall a | Instance(q).OnCurve(a) ensures Instance(q).GeneratedByG(a) {
      MultiplesOfOne(q, a.y);
    }
  }

  lemma UnaryLawsHold(q: nat)
    requires 1 < q
    ensures Instance(q).UnaryLaws()
  {
    forall a | Instance(q).OnCurve(a)
      ensures Instance(q).Plus(INFINITY, a) == a
      ensures Instance(q).OnCurve(Instance(q).Neg(a)) && Instance(q).Plus(a, Instance(q).Neg(a)) == INFINITY
    {
      PlusAddsResidues(q, 0, a.y);
      PlusAddsResidues(q, a.y, if a.y == 0 then 0 else q - a.y);
    }
  }

  lemma BinaryLawsHold(q: nat)
    requires 1 < q
    ensures Instance(q).BinaryLaws()
  {
    forall a, b | Instance(q).OnCurve2(a, b)
      ensures Instance(q).OnCurve(Instance(q).Plus(a, b)) && Instance(q).Plus(a, b) == Instance(q).Plus(b, a)
    {
      PlusAddsResidues(q, a.y, b.y);
      PlusAddsResidues(q, b.y, a.y);
    }
  }

  lemma TernaryLawsHold(q: nat)
    requires 1 < q
    ensures Instance(q).TernaryLaws()
  {
    forall a, b, d | Instance(q).OnCurve3(a, b, d)
      ensures Instance(q).Plus(Instance(q).Plus(a, b), d) == Instance(q).Plus(a, Instance(q).Plus(b, d))
    {
      PlusAddsResidues(q, a.y, b.y);
      PlusAddsResidues(q, b.y, d.y);
      PlusAddsResidues(q, Sum(q, a.y, b.y), d.y);
      PlusAddsResidues(q, a.y, Sum(q, b.y, d.y));
    }
  }

  lemma JacobianLawsHold(q: nat)
    requires 1 < q
    ensures Instance(q).JacobianLaws()
  {
    forall a, b
      ensures Instance(q).Normalize(Instance(q).JacAdd(a, b)) ==
              Instance(q).Plus(Instance(q).Normalize(a), Instance(q).Normalize(b))
    {
      PlusAddsResidues(q, Residue(q, a), Residue(q, b));
    }
  }

  /** The laws hold of an actual group, of any prime order. */
  lemma InstanceIsValid(q: nat)
    requires IsPrime(q)
    ensures Instance(q).Valid()
  {
    PrimeOrderHolds(q);
    UnaryLawsHold(q);
    BinaryLawsHold(q);
    TernaryLawsHold(q);
    JacobianLawsHold(q);
  }
}
