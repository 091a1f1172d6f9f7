/**
 Schnorr proofs for linear statements. A statement is a list of equations
   x[i1] * B1 + x[i2] * B2 + ... == target
 over shared unknown scalars x. The six protocols of the library are instances; this module proves
 completeness, special soundness, challenge uniqueness and simulation for every such statement.
 */
module Sigma {
  import opened Scalars
  import opened Curves

  datatype Term = Term(index: nat, base: Affine)

  datatype Equation = Equation(terms: seq<Term>, target: Affine)

  predicate TermsFit(c: Curve, arity: nat, terms: seq<Term>)
  {
    forall t :: t in terms ==> t.index < arity && c.OnCurve(t.base)
  }

  /** The equation mentions only unknowns below arity and points on the curve. */
  predicate Fits(c: Curve, arity: nat, eq: Equation)
  {
    TermsFit(c, arity, eq.terms) && c.OnCurve(eq.target)
  }

  ghost predicate WellFormed(c: Curve, arity: nat, eqs: seq<Equation>)
  {
    forall i :: 0 <= i < |eqs| ==> Fits(c, arity, eqs[i])
  }

  /** Canonical scalars. */
  predicate IsScalars(q: nat, x: seq<nat>)
  {
    forall i :: 0 <= i < |x| ==> x[i] < q
  }

  ghost predicate AllOnCurve(c: Curve, A: seq<Affine>)
  {
    forall i :: 0 <= i < |A| ==> c.OnCurve(A[i])
  }

  predicate Indexed(arity: nat, terms: seq<Term>)
  {
    forall t :: t in terms ==> t.index < arity
  }

  predicate AllIndexed(arity: nat, eqs: seq<Equation>)
  {
    forall i :: 0 <= i < |eqs| ==> Indexed(arity, eqs[i].terms)
  }

  /** x[i1] * B1 + x[i2] * B2 + ... */
  function Combine(c: Curve, x: seq<nat>, terms: seq<Term>): Affine
    requires Indexed(|x|, terms)
  {
    if terms == [] then INFINITY
    else if |terms| == 1 then c.Mul(x[terms[0].index], terms[0].base)
    else c.Plus(c.Mul(x[terms[0].index], terms[0].base), Combine(c, x, terms[1..]))
  }

  /** x solves every equation. */
  ghost predicate Satisfies(c: Curve, eqs: seq<Equation>, x: seq<nat>)
  {
    forall i :: 0 <= i < |eqs| ==> Indexed(|x|, eqs[i].terms) && Combine(c, x, eqs[i].terms) == eqs[i].target
  }

  /** The statement is true. */
  ghost predicate HasSolution(c: Curve, arity: nat, eqs: seq<Equation>)
  {
    exists x: seq<nat> :: |x| == arity && IsScalars(c.q, x) && Satisfies(c, eqs, x)
  }

  /** One verification equation: combination of the responses == commitment + e * target. */
  predicate RowHolds(c: Curve, eq: Equation, A: Affine, e: nat, z: seq<nat>)
  {
    Indexed(|z|, eq.terms) && Combine(c, z, eq.terms) == c.Plus(A, c.Mul(e, eq.target))
  }

  /** All verification equations, for commitments A, challenge e and responses z. */
  predicate Check(c: Curve, eqs: seq<Equation>, A: seq<Affine>, e: nat, z: seq<nat>)
  {
    |A| == |eqs| && forall i :: 0 <= i < |eqs| ==> RowHolds(c, eqs[i], A[i], e, z)
  }

  /** The honest commitments for nonces k. */
  function Commit(c: Curve, eqs: seq<Equation>, k: seq<nat>): (A: seq<Affine>)
    requires AllIndexed(|k|, eqs)
  {
    seq(|eqs|, i requires 0 <= i < |eqs| => Combine(c, k, eqs[i].terms))
  }

  /** The honest responses k + e * w. */
  function Respond(q: nat, k: seq<nat>, e: nat, w: seq<nat>): (z: seq<nat>)
    requires q > 0 && |k| == |w|
    ensures |z| == |w| && IsScalars(q, z)
  {
    seq(|k|, i requires 0 <= i < |k| => AddQ(q, k[i], MulQ(q, e, w[i])))
  }

  // ---------- Combine is linear ----------

  lemma {:induction false} CombineClosed(c: Curve, x: seq<nat>, terms: seq<Term>)
    requires c.Valid() && TermsFit(c, |x|, terms)
    ensures c.OnCurve(Combine(c, x, terms))
  {
    if terms != [] {
      MulClosed(c, x[terms[0].index], terms[0].base);
      if |terms| > 1 {
        CombineClosed(c, x, terms[1..]);
        PlusClosed(c, c.Mul(x[terms[0].index], terms[0].base), Combine(c, x, terms[1..]));
      }
    }
  }

  lemma {:induction false} CombineAdds(c: Curve, x: seq<nat>, y: seq<nat>, z: seq<nat>, terms: seq<Term>)
    requires c.Valid() && TermsFit(c, |x|, terms)
    requires |x| == |y| == |z| && forall i :: 0 <= i < |x| ==> z[i] == AddQ(c.q, x[i], y[i])
    ensures Combine(c, z, terms) == c.Plus(Combine(c, x, terms), Combine(c, y, terms))
  {
    if terms == [] {
      PlusIdentity(c, INFINITY);
    } else {
      var t := terms[0];
      MulAddQ(c, x[t.index], y[t.index], t.base);
      if |terms| > 1 {
        var rest := terms[1..];
        CombineAdds(c, x, y, z, rest);
        MulClosed(c, x[t.index], t.base);
        MulClosed(c, y[t.index], t.base);
        CombineClosed(c, x, rest);
        CombineClosed(c, y, rest);
        PlusInterchange(c, c.Mul(x[t.index], t.base), c.Mul(y[t.index], t.base),
                        Combine(c, x, rest), Combine(c, y, rest));
      }
    }
  }

  lemma {:induction false} CombineScales(c: Curve, e: nat, x: seq<nat>, y: seq<nat>, terms: seq<Term>)
    requires c.Valid() && TermsFit(c, |x|, terms)
    requires |x| == |y| && forall i :: 0 <= i < |x| ==> y[i] == MulQ(c.q, e, x[i])
    ensures Combine(c, y, terms) == c.Mul(e, Combine(c, x, terms))
  {
    if terms == [] {
      MulInfinity(c, e);
    } else {
      var t := terms[0];
      MulMulQ(c, e, x[t.index], t.base);
      if |terms| > 1 {
        CombineScales(c, e, x, y, terms[1..]);
        MulClosed(c, x[t.index], t.base);
        CombineClosed(c, x, terms[1..]);
        MulDistributes(c, e, c.Mul(x[t.index], t.base), Combine(c, x, terms[1..]));
      }
    }
  }

  /** Combining the honest responses. */
  lemma CombineResponds(c: Curve, k: seq<nat>, e: nat, w: seq<nat>, terms: seq<Term>)
    requires c.Valid() && |k| == |w| && TermsFit(c, |w|, terms)
    ensures Combine(c, Respond(c.q, k, e, w), terms) ==
            c.Plus(Combine(c, k, terms), c.Mul(e, Combine(c, w, terms)))
  {
    var ew := seq(|w|, i requires 0 <= i < |w| => MulQ(c.q, e, w[i]));
    CombineScales(c, e, w, ew, terms);
    CombineAdds(c, k, ew, Respond(c.q, k, e, w), terms);
  }

  // ---------- completeness ----------

  lemma Completeness(c: Curve, eqs: seq<Equation>, w: seq<nat>, k: seq<nat>, e: nat)
    requires c.Valid() && |k| == |w| && WellFormed(c, |w|, eqs)
    requires Satisfies(c, eqs, w)
    ensures Check(c, eqs, Commit(c, eqs, k), e, Respond(c.q, k, e, w))
  {
    forall i | 0 <= i < |eqs|
      ensures RowHolds(c, eqs[i], Commit(c, eqs, k)[i], e, Respond(c.q, k, e, w))
    {
      assert Fits(c, |w|, eqs[i]);
      CombineResponds(c, k, e, w, eqs[i].terms);
    }
  }

  // ---------- special soundness ----------

  /** The witness computed from two accepting transcripts: (z1 - z2) / (e1 - e2). */
  ghost function Extract(q: nat, e1: nat, z1: seq<nat>, e2: nat, z2: seq<nat>): (w: seq<nat>)
    requires IsPrime(q) && e1 < q && e2 < q && e1 != e2
    requires |z1| == |z2| && IsScalars(q, z1) && IsScalars(q, z2)
    ensures |w| == |z1| && IsScalars(q, w)
  {
    var i := Inverse(q, SubQ(q, e1, e2));
    seq(|z1|, j requires 0 <= j < |z1| => MulQ(q, i, SubQ(q, z1[j], z2[j])))
  }

  lemma ExtractRow(c: Curve, eq: Equation, A: Affine, e1: nat, z1: seq<nat>, e2: nat, z2: seq<nat>)
    requires c.Valid() && c.OnCurve(A) && Fits(c, |z1|, eq)
    requires e1 < c.q && e2 < c.q && e1 != e2
    requires |z1| == |z2| && IsScalars(c.q, z1) && IsScalars(c.q, z2)
    requires RowHolds(c, eq, A, e1, z1) && RowHolds(c, eq, A, e2, z2)
    ensures Combine(c, Extract(c.q, e1, z1, e2, z2), eq.terms) == eq.target
  {
    var T := eq.target;
    var d := SubQ(c.q, e1, e2);
    var dz: seq<nat> := seq(|z1|, j requires 0 <= j < |z1| => SubQ(c.q, z1[j], z2[j]));
    var Z := Combine(c, dz, eq.terms);
    // z1 = z2 + dz and e1 = e2 + d, so the two rows differ by Z == d * T
    CombineAdds(c, z2, dz, z1, eq.terms);
    MulAddQ(c, e2, d, T);
    CombineClosed(c, dz, eq.terms);
    MulClosed(c, e2, T);
    MulClosed(c, d, T);
    PlusClosed(c, A, c.Mul(e2, T));
    PlusAssociates(c, A, c.Mul(e2, T), c.Mul(d, T));
    PlusCancels(c, c.Plus(A, c.Mul(e2, T)), Z, c.Mul(d, T));
    var i := Inverse(c.q, d);
    CombineScales(c, i, dz, Extract(c.q, e1, z1, e2, z2), eq.terms);
    MulInverse(c, d, T);
  }

  /** Two accepting transcripts with the same commitments and different challenges give a solution. */
  lemma SpecialSoundness(c: Curve, eqs: seq<Equation>, A: seq<Affine>,
                         e1: nat, z1: seq<nat>, e2: nat, z2: seq<nat>)
    requires c.Valid() && WellFormed(c, |z1|, eqs) && AllOnCurve(c, A)
    requires e1 < c.q && e2 < c.q && e1 != e2
    requires |z1| == |z2| && IsScalars(c.q, z1) && IsScalars(c.q, z2)
    requires Check(c, eqs, A, e1, z1) && Check(c, eqs, A, e2, z2)
    ensures Satisfies(c, eqs, Extract(c.q, e1, z1, e2, z2))
  {
    var w := Extract(c.q, e1, z1, e2, z2);
    forall i | 0 <= i < |eqs| ensures Indexed(|w|, eqs[i].terms) && Combine(c, w, eqs[i].terms) == eqs[i].target {
      assert Fits(c, |z1|, eqs[i]);
      ExtractRow(c, eqs[i], A[i], e1, z1, e2, z2);
    }
  }

  /** Some response makes the verification equations hold for challenge e. */
  ghost predicate Answerable(c: Curve, arity: nat, eqs: seq<Equation>, A: seq<Affine>, e: nat)
  {
    exists z: seq<nat> :: |z| == arity && IsScalars(c.q, z) && Check(c, eqs, A, e, z)
  }

  /** Answers to two challenges solve the statement. */
  lemma TwoAnswersSolve(c: Curve, arity: nat, eqs: seq<Equation>, A: seq<Affine>, e1: nat, e2: nat)
    requires c.Valid() && WellFormed(c, arity, eqs) && AllOnCurve(c, A)
    requires e1 < c.q && e2 < c.q && e1 != e2
    requires Answerable(c, arity, eqs, A, e1) && Answerable(c, arity, eqs, A, e2)
    ensures HasSolution(c, arity, eqs)
  {
    var z1: seq<nat> :| |z1| == arity && IsScalars(c.q, z1) && Check(c, eqs, A, e1, z1);
    var z2: seq<nat> :| |z2| == arity && IsScalars(c.q, z2) && Check(c, eqs, A, e2, z2);
    SpecialSoundness(c, eqs, A, e1, z1, e2, z2);
  }

  /** For a false statement and fixed commitments, at most one challenge can be answered. */
  lemma FalseStatementOneChallenge(c: Curve, arity: nat, eqs: seq<Equation>, A: seq<Affine>, e1: nat, e2: nat)
    requires c.Valid() && WellFormed(c, arity, eqs) && AllOnCurve(c, A)
    requires !HasSolution(c, arity, eqs)
    requires e1 < c.q && Answerable(c, arity, eqs, A, e1)
    requires e2 < c.q && Answerable(c, arity, eqs, A, e2)
    ensures e1 == e2
  {
    if e1 != e2 {
      TwoAnswersSolve(c, arity, eqs, A, e1, e2);
    }
  }

  /** A true statement can be answered for every challenge, whatever the nonces committed to. */
  lemma TrueStatementEveryChallenge(c: Curve, arity: nat, eqs: seq<Equation>, k: seq<nat>, e: nat)
    requires c.Valid() && WellFormed(c, arity, eqs) && |k| == arity
    requires HasSolution(c, arity, eqs)
    ensures AllIndexed(|k|, eqs)
    ensures Answerable(c, arity, eqs, Commit(c, eqs, k), e)
  {
    var w: seq<nat> :| |w| == arity && IsScalars(c.q, w) && Satisfies(c, eqs, w);
    Completeness(c, eqs, w, k, e);
    assert Check(c, eqs, Commit(c, eqs, k), e, Respond(c.q, k, e, w));
  }

  /** Responses accepted for the same commitments and challenge combine alike in every row. */
  lemma AcceptedCombineAlike(c: Curve, eqs: seq<Equation>, A: seq<Affine>, e: nat, z: seq<nat>, z': seq<nat>)
    requires Check(c, eqs, A, e, z) && Check(c, eqs, A, e, z')
    ensures AllIndexed(|z|, eqs) && AllIndexed(|z'|, eqs)
    ensures forall i :: 0 <= i < |eqs| ==> Combine(c, z, eqs[i].terms) == Combine(c, z', eqs[i].terms)
  {
    forall i | 0 <= i < |eqs|
      ensures Indexed(|z|, eqs[i].terms) && Indexed(|z'|, eqs[i].terms)
      ensures Combine(c, z, eqs[i].terms) == Combine(c, z', eqs[i].terms)
    {
      assert RowHolds(c, eqs[i], A[i], e, z) && RowHolds(c, eqs[i], A[i], e, z');
    }
  }

  // ---------- simulation ----------

  /** The commitments solved from the verification equations, for chosen responses. */
  function Simulate(c: Curve, eqs: seq<Equation>, e: nat, z: seq<nat>): (A: seq<Affine>)
    requires AllIndexed(|z|, eqs)
  {
    seq(|eqs|, i requires 0 <= i < |eqs| => c.Minus(Combine(c, z, eqs[i].terms), c.Mul(e, eqs[i].target)))
  }

  /** Simulated transcripts are exactly the accepting ones; no witness is involved. */
  lemma SimulateIffCheck(c: Curve, eqs: seq<Equation>, A: seq<Affine>, e: nat, z: seq<nat>)
    requires c.Valid() && WellFormed(c, |z|, eqs) && AllOnCurve(c, A)
    ensures AllIndexed(|z|, eqs)
    ensures Check(c, eqs, A, e, z) <==> A == Simulate(c, eqs, e, z)
  {
    forall i | 0 <= i < |eqs| ensures Indexed(|z|, eqs[i].terms) {
      assert Fits(c, |z|, eqs[i]);
    }
    if |A| == |eqs| {
      forall i | 0 <= i < |eqs|
        ensures RowHolds(c, eqs[i], A[i], e, z) <==> A[i] == Simulate(c, eqs, e, z)[i]
      {
        assert Fits(c, |z|, eqs[i]);
        CombineClosed(c, z, eqs[i].terms);
        MulClosed(c, e, eqs[i].target);
        MinusIff(c, Combine(c, z, eqs[i].terms), c.Mul(e, eqs[i].target), A[i]);
      }
    }
  }

  /** The nonces behind given responses: z - e * w. */
  function Nonces(q: nat, z: seq<nat>, e: nat, w: seq<nat>): (k: seq<nat>)
    requires q > 0 && |z| == |w| && IsScalars(q, z)
    ensures |k| == |w| && IsScalars(q, k)
  {
    seq(|z|, i requires 0 <= i < |z| => SubQ(q, z[i], MulQ(q, e, w[i])))
  }

  /** For fixed e and w, k -> k + e * w is a bijection on scalar vectors, with inverse Nonces. */
  lemma RespondBijection(q: nat, k: seq<nat>, z: seq<nat>, e: nat, w: seq<nat>)
    requires q > 0 && |k| == |w| == |z| && IsScalars(q, k) && IsScalars(q, z)
    ensures z == Respond(q, k, e, w) <==> k == Nonces(q, z, e, w)
  {
    forall i | 0 <= i < |w|
      ensures z[i] == Respond(q, k, e, w)[i] <==> k[i] == Nonces(q, z, e, w)[i]
    {
      var ew := MulQ(q, e, w[i]);
      assert AddQ(q, ew, k[i]) == AddQ(q, k[i], ew);
      if z[i] == AddQ(q, k[i], ew) {
        SubQUnique(q, z[i], ew, k[i]);
      }
    }
  }

  /** (A, z) is the honest transcript for some nonces. */
  ghost predicate IsHonest(c: Curve, eqs: seq<Equation>, w: seq<nat>, A: seq<Affine>, e: nat, z: seq<nat>)
    requires c.q > 0 && AllIndexed(|w|, eqs)
  {
    exists k: seq<nat> :: |k| == |w| && IsScalars(c.q, k) && A == Commit(c, eqs, k) && z == Respond(c.q, k, e, w)
  }

  /**
   For a true statement and any challenge, the honest transcripts over all nonces are exactly the
   simulated transcripts over all responses.
   */
  lemma Simulation(c: Curve, eqs: seq<Equation>, w: seq<nat>, A: seq<Affine>, e: nat, z: seq<nat>)
    requires c.Valid() && WellFormed(c, |w|, eqs) && Satisfies(c, eqs, w)
    requires |z| == |w| && IsScalars(c.q, z)
    ensures IsHonest(c, eqs, w, A, e, z) <==> A == Simulate(c, eqs, e, z)
  {
    var k := Nonces(c.q, z, e, w);
    RespondBijection(c.q, k, z, e, w);
    HonestIsSimulated(c, eqs, w, k, e);
    if IsHonest(c, eqs, w, A, e, z) {
      var k': seq<nat> :| |k'| == |w| && IsScalars(c.q, k') && A == Commit(c, eqs, k') && z == Respond(c.q, k', e, w);
      RespondBijection(c.q, k', z, e, w);
    }
  }

  lemma HonestIsSimulated(c: Curve, eqs: seq<Equation>, w: seq<nat>, k: seq<nat>, e: nat)
    requires c.Valid() && |k| == |w| && WellFormed(c, |w|, eqs) && Satisfies(c, eqs, w)
    ensures Commit(c, eqs, k) == Simulate(c, eqs, e, Respond(c.q, k, e, w))
  {
    Completeness(c, eqs, w, k, e);
    forall i | 0 <= i < |eqs| ensures c.OnCurve(Commit(c, eqs, k)[i]) {
      assert Fits(c, |w|, eqs[i]);
      CombineClosed(c, k, eqs[i].terms);
    }
    SimulateIffCheck(c, eqs, Commit(c, eqs, k), e, Respond(c.q, k, e, w));
  }
}
