/** Baby-step giant-step: a table of i * base for i in [0, 2^halfBits), searched with steps of -2^halfBits * base. */
module DecryptionTables {
  import opened Scalars
  import opened Curves
  import opened DiscreteLogs

  const MAX_HALF_BITS: nat := 30

  lemma HalfBitsBound(h: nat)
    requires h <= MAX_HALF_BITS
    ensures Pow2(h) * Pow2(h) <= 0x1000_0000_0000_0000 < TWO64
    ensures Pow2(2 * h) == Pow2(h) * Pow2(h) && Pow2(h) <= Pow2(2 * h)
  {
    Pow2Values();
    Pow2Adds(h, h);
    Pow2Grows(2 * h, 60);
    Pow2Grows(h, 2 * h);
  }

  function BabyStep(c: Curve, base: Affine, i: nat): Affine
  {
    c.Mul(i, base)
  }

  /** The table holds exactly the baby steps below n, each under a logarithm of it. */
  ghost predicate IsBabyTable(c: Curve, base: Affine, table: map<Affine, uint64>, n: nat)
  {
    && (forall P {:trigger table[P]} :: P in table ==> table[P] < n && c.Mul(table[P], base) == P)
    && (forall i: nat {:trigger BabyStep(c, base, i)} :: i < n ==> BabyStep(c, base, i) in table)
  }

  ghost predicate ValuesBelow(table: map<Affine, uint64>, n: nat)
  {
    forall P {:trigger table[P]} :: P in table ==> table[P] < n
  }

  /** The table of the first i baby steps and the running point (i - 1) * base, for a base on the curve. */
  ghost predicate BabyState(c: Curve, base: Affine, table: map<Affine, uint64>, current: Jacobian, i: nat)
  {
    && i > 0 && ValuesBelow(table, i)
    && (c.OnCurve(base) ==>
          && IsBabyTable(c, base, table, i)
          && c.OnCurve(c.Normalize(current)) && c.Normalize(current) == c.Mul(i - 1, base))
  }

  lemma FirstBabyStep(c: Curve, base: Affine)
    requires c.Valid()
    ensures BabyState(c, base, map[INFINITY := 0], ZERO_JACOBIAN, 1)
  {
  }

  lemma NextBabyStep(c: Curve, base: Affine, table: map<Affine, uint64>, current: Jacobian, i: uint64)
    requires c.Valid() && BabyState(c, base, table, current, i)
    ensures var next := c.JacAdd(current, FromAffine(base));
            BabyState(c, base, table[c.Normalize(next) := i], next, i + 1)
  {
    if c.OnCurve(base) {
      StepJacobian(c, current, base);
      assert BabyStep(c, base, i) == c.Normalize(c.JacAdd(current, FromAffine(base)));
    }
  }

  lemma LastBabyStep(c: Curve, base: Affine, table: map<Affine, uint64>, current: Jacobian, n: nat)
    requires c.Valid() && c.OnCurve(base) && BabyState(c, base, table, current, n)
    ensures c.Normalize(c.JacAdd(current, FromAffine(base))) == c.Mul(n, base)
  {
    StepJacobian(c, current, base);
  }

  class DecryptionTable {
    const c: Curve
    const halfBits: nat
    const base: Affine
    var table: map<Affine, uint64>
    var giantStep: Affine

    ghost predicate Valid()
      reads this
    {
      && c.Valid() && halfBits <= MAX_HALF_BITS && ValuesBelow(table, Pow2(halfBits))
      && (c.OnCurve(base) ==>
            && IsBabyTable(c, base, table, Pow2(halfBits))
            && giantStep == c.Neg(c.Mul(Pow2(halfBits), base)))
    }

    /** The number of logarithms covered. */
    ghost function Range(): nat
    {
      Pow2(2 * halfBits)
    }

    /** NewDecryptionTableWithBase; NewDecryptionTable is the case base == G. */
    constructor WithBase(c: Curve, halfBits: nat, base: Affine)
      requires c.Valid() && halfBits <= MAX_HALF_BITS
      ensures Valid()
      ensures this.c == c && this.halfBits == halfBits && this.base == base
    {
      this.c := c;
      this.halfBits := halfBits;
      this.base := base;
      this.table := map[INFINITY := 0];
      this.giantStep := INFINITY;
      new;
      var current := AddBabySteps();
      if c.OnCurve(base) {
        LastBabyStep(c, base, table, current, Pow2(halfBits));
      }
      var nBase := c.Normalize(c.JacAdd(current, FromAffine(base)));
      giantStep := c.Neg(nBase);
    }

    /** The loop of the constructor: stores i * base under i, and returns the running point. */
    method AddBabySteps() returns (currentJac: Jacobian)
      requires c.Valid() && halfBits <= MAX_HALF_BITS && table == map[INFINITY := 0]
      modifies this`table
      ensures BabyState(c, base, table, currentJac, Pow2(halfBits))
    {
      var n := Pow2(halfBits);
      HalfBitsBound(halfBits);
      currentJac := ZERO_JACOBIAN;
      var baseJac := FromAffine(base);
      FirstBabyStep(c, base);
      var i := 1;
      while i < n
        invariant 1 <= i <= n && BabyState(c, base, table, currentJac, i)
      {
        NextBabyStep(c, base, table, currentJac, i);
        currentJac := c.JacAdd(currentJac, baseJac);
        var current := c.Normalize(currentJac);
        table := table[current := i];
        i := i + 1;
      }
    }

    /**
     Finds a logarithm of a curve point mG below Range() whenever there is one. The number of table
     lookups is exact: the giant step that succeeds is number v / n, and a failing search takes all n.
     */
    method DiscreteLog(mG: Affine) returns (r: Option<uint64>, ghost lookups: nat)
      requires Valid()
      ensures c.OnCurve(base) && c.OnCurve(mG) ==> IsAnswer(c, base, Range(), mG, r)
      ensures r.Some? ==> r.value < Range()
      ensures lookups == if r.Some? then r.value / Pow2(halfBits) + 1 else Pow2(halfBits)
    {
      var n := Pow2(halfBits);
      HalfBitsBound(halfBits);
      var gammaJac := FromAffine(mG);
      var giantJac := FromAffine(giantStep);
      SearchStarts(c, base, mG, n);
      lookups := 0;
      var j := 0;
      while j < n
        invariant j <= n && lookups == j
        invariant SearchState(c, base, mG, n, j, gammaJac)
      {
        var gamma := c.Normalize(gammaJac);
        lookups := lookups + 1;
        if gamma in table {
          var i := table[gamma];
          SearchFound(c, base, table, mG, n, Range(), j, gammaJac);
          r := Some(Combined(n, j, i) % TWO64);
          return;
        }
        SearchMissed(c, base, table, mG, n, j, gammaJac);
        gammaJac := c.JacAdd(gammaJac, giantJac);
        j := j + 1;
      }
      SearchExhausted(c, base, mG, n, Range(), gammaJac);
      r := None;
    }
  }

  /** What a solver promises: a logarithm below range, the least one within the group order, or none. */
  ghost predicate IsAnswer(c: Curve, base: Affine, range: nat, P: Affine, r: Option<uint64>)
  {
    && (r.Some? ==> r.value < range && c.Mul(r.value, base) == P)
    && (r.None? ==> forall m: nat :: m < range ==> c.Mul(m, base) != P)
    && (base != INFINITY && range <= c.q ==> r == LinearSearch(c, base, range, P))
  }

  /** After j giant steps: gamma is mG - j * n * base, and no logarithm lies below j * n. */
  ghost predicate SearchState(c: Curve, base: Affine, mG: Affine, n: nat, j: nat, gamma: Jacobian)
  {
    c.OnCurve(base) && c.OnCurve(mG) ==>
      && c.OnCurve(c.Normalize(gamma))
      && c.Normalize(gamma) == c.Plus(mG, c.Mul(j, c.Neg(c.Mul(n, base))))
      && forall m: nat :: m < Combined(n, j, 0) ==> c.Mul(m, base) != mG
  }

  lemma SearchStarts(c: Curve, base: Affine, mG: Affine, n: nat)
    requires c.Valid()
    ensures SearchState(c, base, mG, n, 0, FromAffine(mG))
  {
    if c.OnCurve(base) && c.OnCurve(mG) {
      StartsAtZero(c, mG, c.Neg(c.Mul(n, base)));
    }
  }

  lemma SearchMissed(c: Curve, base: Affine, table: map<Affine, uint64>, mG: Affine, n: nat, j: nat, gamma: Jacobian)
    requires c.Valid() && SearchState(c, base, mG, n, j, gamma) && c.Normalize(gamma) !in table
    requires c.OnCurve(base) ==> IsBabyTable(c, base, table, n)
    ensures SearchState(c, base, mG, n, j + 1, c.JacAdd(gamma, FromAffine(c.Neg(c.Mul(n, base)))))
  {
    if c.OnCurve(base) && c.OnCurve(mG) {
      MissedRow(c, base, table, mG, n, j);
      GiantStepOnCurve(c, n, base);
      StepGiant(c, gamma, mG, c.Neg(c.Mul(n, base)), j);
    }
  }

  lemma SearchFound(c: Curve, base: Affine, table: map<Affine, uint64>, mG: Affine, n: nat, range: nat, j: nat,
                    gamma: Jacobian)
    requires c.Valid() && SearchState(c, base, mG, n, j, gamma) && c.Normalize(gamma) in table
    requires ValuesBelow(table, n) && (c.OnCurve(base) ==> IsBabyTable(c, base, table, n))
    requires j < n && range == n * n < TWO64
    ensures var m := Combined(n, j, table[c.Normalize(gamma)]) % TWO64;
            && m < range && m / n == j
            && (c.OnCurve(base) && c.OnCurve(mG) ==> IsAnswer(c, base, range, mG, Some(m)))
  {
    var i := table[c.Normalize(gamma)];
    CombinedInRange(n, n, j, i);
    DivModIs(Combined(n, j, i), TWO64, 0, Combined(n, j, i));
    if c.OnCurve(base) && c.OnCurve(mG) {
      FoundAt(c, base, mG, n, range, j, i);
    }
  }

  lemma SearchExhausted(c: Curve, base: Affine, mG: Affine, n: nat, range: nat, gamma: Jacobian)
    requires SearchState(c, base, mG, n, n, gamma) && range == n * n
    ensures c.OnCurve(base) && c.OnCurve(mG) ==> IsAnswer(c, base, range, mG, None)
  {
    if c.OnCurve(base) && c.OnCurve(mG) {
      SearchFails(c, base, range, mG);
    }
  }

  /** If gamma is none of the baby steps, no logarithm lies in [j * n, (j + 1) * n). */
  lemma MissedRow(c: Curve, base: Affine, table: map<Affine, uint64>, mG: Affine, n: nat, j: nat)
    requires c.Valid() && c.OnCurve(base) && c.OnCurve(mG) && IsBabyTable(c, base, table, n)
    requires c.Plus(mG, c.Mul(j, c.Neg(c.Mul(n, base)))) !in table
    requires forall m: nat :: m < Combined(n, j, 0) ==> c.Mul(m, base) != mG
    ensures forall m: nat :: m < Combined(n, j + 1, 0) ==> c.Mul(m, base) != mG
  {
    assert (j + 1) * n == j * n + n;
    forall m: nat | Combined(n, j, 0) <= m < Combined(n, j + 1, 0) ensures c.Mul(m, base) != mG {
      GiantStep(c, base, mG, n, j, m - j * n);
      assert BabyStep(c, base, m - j * n) in table;
    }
  }

  /** If gamma is baby step i, then j * n + i is a logarithm, in range and without 64-bit overflow. */
  lemma FoundAt(c: Curve, base: Affine, mG: Affine, n: nat, range: nat, j: nat, i: nat)
    requires c.Valid() && c.OnCurve(base) && c.OnCurve(mG)
    requires j < n && i < n && range == n * n < TWO64
    requires c.Plus(mG, c.Mul(j, c.Neg(c.Mul(n, base)))) == c.Mul(i, base)
    ensures var m := Combined(n, j, i) % TWO64;
            m < range && m / n == j && c.Mul(m, base) == mG
            && (base != INFINITY && range <= c.q ==> LinearSearch(c, base, range, mG) == Some(m))
  {
    var m := Combined(n, j, i);
    GiantStep(c, base, mG, n, j, i);
    CombinedInRange(n, n, j, i);
    DivModIs(m, TWO64, 0, m);
    if base != INFINITY && range <= c.q {
      SearchUnique(c, base, range, mG, m);
    }
  }

  lemma StepJacobian(c: Curve, a: Jacobian, base: Affine)
    requires c.Valid() && c.OnCurve(base) && c.OnCurve(c.Normalize(a))
    ensures c.OnCurve(c.Normalize(c.JacAdd(a, FromAffine(base))))
    ensures c.Normalize(c.JacAdd(a, FromAffine(base))) == c.Plus(c.Normalize(a), base)
  {
    assert c.Normalize(FromAffine(base)) == base;
    assert c.OnCurve2(c.Normalize(a), c.Normalize(FromAffine(base)));
  }

  lemma StartsAtZero(c: Curve, P: Affine, step: Affine)
    requires c.Valid() && c.OnCurve(P)
    ensures c.Normalize(FromAffine(P)) == c.Plus(P, c.Mul(0, step)) == P
  {
    PlusIdentity(c, P);
  }

  lemma GiantStepOnCurve(c: Curve, n: nat, base: Affine)
    requires c.Valid() && c.OnCurve(base)
    ensures c.OnCurve(c.Neg(c.Mul(n, base)))
  {
    MulClosed(c, n, base);
  }

  /** Adding one more step to P + j * step. */
  lemma StepGiant(c: Curve, a: Jacobian, P: Affine, step: Affine, j: nat)
    requires c.Valid() && c.OnCurve(P) && c.OnCurve(step) && c.OnCurve(c.Normalize(a))
    requires c.Normalize(a) == c.Plus(P, c.Mul(j, step))
    ensures c.OnCurve(c.Normalize(c.JacAdd(a, FromAffine(step))))
    ensures c.Normalize(c.JacAdd(a, FromAffine(step))) == c.Plus(P, c.Mul(j + 1, step))
  {
    StepJacobian(c, a, step);
    MulClosed(c, j, step);
    PlusAssociates(c, P, c.Mul(j, step), step);
  }
}
