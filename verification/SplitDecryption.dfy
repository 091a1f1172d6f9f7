/** Large ranges: m == hi * 2^splitBits + lo, trying every lo and searching hi in a table to base 2^splitBits * G. */
module SplitDecryption {
  import opened Scalars
  import opened Curves
  import opened DiscreteLogs
  import opened DecryptionTables
  import opened Reduction

  const MAX_SPLIT_BITS: nat := 32

  function SplitRange(lowBits: nat, halfBits: nat): (r: nat)
    ensures r > 0
  {
    Pow2(lowBits + 2 * halfBits)
  }

  class SplitDecryptionTable {
    const c: Curve
    const splitBits: nat
    const hiTable: DecryptionTable
    const nG: Affine

    ghost predicate Valid()
      reads hiTable
    {
      && c.Valid() && splitBits <= MAX_SPLIT_BITS
      && hiTable.Valid() && hiTable.c == c && hiTable.base == nG
      && nG == c.Mul(Pow2(splitBits), c.G)
    }

    /** The number of logarithms covered. */
    ghost function Range(): nat
    {
      SplitRange(splitBits, hiTable.halfBits)
    }

    constructor (c: Curve, splitBits: nat, hiHalfBits: nat)
      requires c.Valid() && splitBits <= MAX_SPLIT_BITS && hiHalfBits <= MAX_HALF_BITS
      ensures Valid() && fresh(hiTable)
      ensures this.c == c && this.splitBits == splitBits && hiTable.halfBits == hiHalfBits
    {
      MulClosed(c, Pow2(splitBits), c.G);
      var base := c.Mul(Pow2(splitBits), c.G);
      var table := new DecryptionTable.WithBase(c, hiHalfBits, base);
      this.c := c;
      this.splitBits := splitBits;
      this.hiTable := table;
      this.nG := base;
    }

    /** Searches the high part of mG for one low part. */
    method SearchHigh(mG: Affine, residual: Jacobian, l: nat) returns (h: Option<uint64>, ghost spent: nat)
      requires Valid() && l < Pow2(splitBits)
      requires LowState(c, mG, splitBits, hiTable.halfBits, l, residual)
      ensures h.Some? ==> h.value < hiTable.Range()
      ensures h.Some? && c.OnCurve(mG) ==> IsSplitAnswer(c, mG, splitBits, hiTable.halfBits, h.value, l)
      ensures h.None? && c.OnCurve(mG) ==>
                NoLogAtLow(c, mG, Pow2(splitBits), SplitRange(splitBits, hiTable.halfBits), l + 1)
      ensures spent == if h.Some? then h.value / Pow2(hiTable.halfBits) + 1 else Pow2(hiTable.halfBits)
    {
      MulClosed(c, Pow2(splitBits), c.G);
      h, spent := hiTable.DiscreteLog(c.Normalize(residual));
      if c.OnCurve(mG) {
        if h.Some? {
          FoundHigh(c, mG, splitBits, hiTable.halfBits, h.value, l);
        } else {
          MissedLow(c, mG, splitBits, hiTable.halfBits, l);
        }
      }
    }

    /**
     On curve points, succeeds exactly on the multiples m * G with m == hi * 2^splitBits + lo below
     Range(), and returns m modulo 2^64. The number of lookups is exact: every earlier low part
     costs a full search of the high table.
     */
    method DiscreteLog(mG: Affine) returns (r: Option<uint64>, ghost hi: nat, ghost lo: nat, ghost lookups: nat)
      requires Valid()
      ensures r.Some? ==> hi < hiTable.Range() && lo < Pow2(splitBits)
      ensures r.Some? ==> r.value == Combined(Pow2(splitBits), hi, lo) % TWO64
      ensures r.Some? && c.OnCurve(mG) ==> IsSplitLog(c, mG, Pow2(splitBits), Range(), hi, lo)
      ensures r.None? && c.OnCurve(mG) ==> forall m: nat :: m < Range() ==> c.Mul(m, c.G) != mG
      ensures Range() <= c.q && c.OnCurve(mG) ==> r == Solve(c, Range(), mG)
      ensures lookups == if r.Some? then FullSearches(lo, Pow2(hiTable.halfBits)) + hi / Pow2(hiTable.halfBits) + 1
                         else FullSearches(Pow2(splitBits), Pow2(hiTable.halfBits))
    {
      var n := Pow2(splitBits);
      ghost var w := Pow2(hiTable.halfBits);
      var negGJac := FromAffine(c.Neg(c.G));
      var residualJac := FromAffine(mG);
      LowStarts(c, mG, splitBits, hiTable.halfBits);
      hi, lo, lookups := 0, 0, FullSearches(0, w);
      var l := 0;
      while l < n
        invariant l <= n && lookups == FullSearches(l, w)
        invariant LowState(c, mG, splitBits, hiTable.halfBits, l, residualJac)
      {
        var h;
        ghost var spent;
        h, spent := SearchHigh(mG, residualJac, l);
        lookups := lookups + spent;
        if h.Some? {
          hi, lo := h.value, l;
          r := Some(Combined(n, h.value, l) % TWO64);
          return;
        }
        LowAdvances(c, mG, splitBits, hiTable.halfBits, l, residualJac);
        residualJac := c.JacAdd(residualJac, negGJac);
        l := l + 1;
      }
      if c.OnCurve(mG) {
        NoLogAtAll(c, mG, n, Range());
      }
      r := None;
    }
  }

  /** Before low part l: the residual is mG - l * G, and no logarithm has a smaller low part. */
  ghost predicate LowState(c: Curve, mG: Affine, lowBits: nat, halfBits: nat, l: nat, residual: Jacobian)
  {
    c.OnCurve(mG) ==>
      && c.OnCurve(c.Normalize(residual))
      && c.Normalize(residual) == c.Plus(mG, c.Mul(l, c.Neg(c.G)))
      && NoLogAtLow(c, mG, Pow2(lowBits), SplitRange(lowBits, halfBits), l)
  }

  lemma LowStarts(c: Curve, mG: Affine, lowBits: nat, halfBits: nat)
    requires c.Valid()
    ensures LowState(c, mG, lowBits, halfBits, 0, FromAffine(mG))
  {
    if c.OnCurve(mG) {
      StartsAtZero(c, mG, c.Neg(c.G));
    }
  }

  lemma LowAdvances(c: Curve, mG: Affine, lowBits: nat, halfBits: nat, l: nat, residual: Jacobian)
    requires c.Valid() && LowState(c, mG, lowBits, halfBits, l, residual)
    requires c.OnCurve(mG) ==> NoLogAtLow(c, mG, Pow2(lowBits), SplitRange(lowBits, halfBits), l + 1)
    ensures LowState(c, mG, lowBits, halfBits, l + 1, c.JacAdd(residual, FromAffine(c.Neg(c.G))))
  {
    if c.OnCurve(mG) {
      NegIsInverse(c, c.G);
      StepGiant(c, residual, mG, c.Neg(c.G), l);
    }
  }

  /** hi and lo make up a logarithm of mG in range, which within the group order is the solver's answer. */
  ghost predicate IsSplitAnswer(c: Curve, mG: Affine, lowBits: nat, halfBits: nat, hi: nat, lo: nat)
  {
    && IsSplitLog(c, mG, Pow2(lowBits), SplitRange(lowBits, halfBits), hi, lo)
    && (SplitRange(lowBits, halfBits) <= c.q ==>
          Solve(c, SplitRange(lowBits, halfBits), mG) == Some(Combined(Pow2(lowBits), hi, lo) % TWO64))
  }

  ghost predicate IsSplitLog(c: Curve, mG: Affine, n: nat, range: nat, hi: nat, lo: nat)
  {
    lo < n && Combined(n, hi, lo) < range && c.Mul(Combined(n, hi, lo), c.G) == mG
  }

  /** The lookups of k full searches of the high table. */
  ghost function FullSearches(k: nat, w: nat): nat
  {
    if k == 0 then 0 else FullSearches(k - 1, w) + w
  }

  lemma {:induction false} FullSearchesIsProduct(k: nat, w: nat)
    ensures FullSearches(k, w) == k * w
  {
    if k > 0 {
      FullSearchesIsProduct(k - 1, w);
      assert k * w == (k - 1) * w + w;
    }
  }

  /** In terms of the logarithm m found, (m % n) * w + (m / n) / w + 1 lookups, and never more than n * w. */
  lemma WorkWhenFound(n: nat, w: nat, hi: nat, lo: nat)
    requires lo < n && hi < w * w
    ensures var m := Combined(n, hi, lo); m % n == lo && m / n == hi
    ensures FullSearches(lo, w) + hi / w + 1 == lo * w + hi / w + 1 <= n * w
  {
    DivModIs(Combined(n, hi, lo), n, hi, lo);
    FullSearchesIsProduct(lo, w);
    QuotientBound(hi, w, w);
    assert lo * w + w == (lo + 1) * w == w * (lo + 1);
    ProductGrows(w, lo + 1, n);
    assert w * n == n * w;
  }

  function LowPart(n: nat, m: nat): nat
    requires n > 0
  {
    m % n
  }

  /** mG is not (hi * n + l) * G for any l < lo and hi < R. */
  ghost predicate NoLogAtLow(c: Curve, mG: Affine, n: nat, range: nat, lo: nat)
  {
    n > 0 && forall m: nat {:trigger LowPart(n, m)} :: m < range && LowPart(n, m) < lo ==> c.Mul(m, c.G) != mG
  }

  /** The residual is hi * (n * G) exactly when mG is (hi * n + lo) * G. */
  lemma ResidualIff(c: Curve, mG: Affine, n: nat, hi: nat, lo: nat)
    requires c.Valid() && c.OnCurve(mG)
    ensures c.Plus(mG, c.Mul(lo, c.Neg(c.G))) == c.Mul(hi, c.Mul(n, c.G)) <==> mG == c.Mul(Combined(n, hi, lo), c.G)
  {
    var k: nat := MultiplesCompose(c, hi, n, c.G);
    MulClosed(c, lo, c.G);
    MulClosed(c, k, c.G);
    MulNeg(c, lo, c.G);
    MinusIff(c, mG, c.Mul(lo, c.G), c.Mul(k, c.G));
    MulAddsTo(c, k, lo, Combined(n, hi, lo), c.G);
  }

  lemma FoundHigh(c: Curve, mG: Affine, lowBits: nat, halfBits: nat, hi: nat, lo: nat)
    requires c.Valid() && c.OnCurve(mG) && hi < Pow2(2 * halfBits) && lo < Pow2(lowBits)
    requires c.Mul(hi, c.Mul(Pow2(lowBits), c.G)) == c.Plus(mG, c.Mul(lo, c.Neg(c.G)))
    ensures IsSplitAnswer(c, mG, lowBits, halfBits, hi, lo)
  {
    var n, range := Pow2(lowBits), SplitRange(lowBits, halfBits);
    Pow2Adds(lowBits, 2 * halfBits);
    ResidualIff(c, mG, n, hi, lo);
    CombinedInRange(n, Pow2(2 * halfBits), hi, lo);
    if range <= c.q {
      SearchUnique(c, c.G, range, mG, Combined(n, hi, lo));
    }
  }

  lemma MissedLow(c: Curve, mG: Affine, lowBits: nat, halfBits: nat, lo: nat)
    requires c.Valid() && c.OnCurve(mG) && lo < Pow2(lowBits)
    requires NoLogAtLow(c, mG, Pow2(lowBits), SplitRange(lowBits, halfBits), lo)
    requires forall hi: nat :: hi < Pow2(2 * halfBits) ==>
               c.Mul(hi, c.Mul(Pow2(lowBits), c.G)) != c.Plus(mG, c.Mul(lo, c.Neg(c.G)))
    ensures NoLogAtLow(c, mG, Pow2(lowBits), SplitRange(lowBits, halfBits), lo + 1)
  {
    var n, range := Pow2(lowBits), SplitRange(lowBits, halfBits);
    Pow2Adds(lowBits, 2 * halfBits);
    forall m: nat | m < range && LowPart(n, m) == lo ensures c.Mul(m, c.G) != mG {
      var hi := m / n;
      DivMod(m, n);
      QuotientBound(m, n, Pow2(2 * halfBits));
      assert c.Mul(hi, c.Mul(n, c.G)) != c.Plus(mG, c.Mul(lo, c.Neg(c.G)));
      ResidualIff(c, mG, n, hi, lo);
      assert Combined(n, hi, lo) == m;
    }
  }

  lemma QuotientBound(m: nat, n: nat, R: nat)
    requires n > 0 && m < n * R
    ensures m / n < R
  {
    var k := m / n;
    assert n * k <= m by { DivMod(m, n); }
    if k >= R {
      ProductGrows(n, R, k);
    }
  }

  lemma ProductGrows(n: nat, a: nat, b: nat)
    requires a <= b
    ensures n * a <= n * b
  {
  }

  lemma NoLogAtAll(c: Curve, mG: Affine, n: nat, range: nat)
    requires n > 0 && NoLogAtLow(c, mG, n, range, n)
    ensures forall m: nat :: m < range ==> c.Mul(m, c.G) != mG
    ensures Solve(c, range, mG) == None
  {
    forall m: nat | m < range ensures c.Mul(m, c.G) != mG {
      assert LowPart(n, m) < n;
    }
    SearchFails(c, c.G, range, mG);
  }

  /**
   In a group of prime order every residual, for right and wrong lo alike, is a multiple of
   n * G; a wrong lo is rejected because the multiplier lies outside the high table's range.
   */
  lemma EveryResidualIsMultiple(c: Curve, n: nat, residual: Affine)
    requires c.Valid() && c.OnCurve(residual) && 0 < n < c.q
    ensures exists hi: nat :: hi < c.q && c.Mul(hi, c.Mul(n, c.G)) == residual
  {
    MulClosed(c, n, c.G);
    if c.Mul(n, c.G) == INFINITY {
      MulInjective(c, n, 0, c.G);
    }
    LogExists(c, c.Mul(n, c.G), residual);
  }

  /** The parameters the constructor admits stay within the deployed group order, which also exceeds every amount. */
  lemma DeployedOrderCovers(splitBits: nat, hiHalfBits: nat)
    requires splitBits <= MAX_SPLIT_BITS && hiHalfBits <= MAX_HALF_BITS
    ensures SplitRange(splitBits, hiHalfBits) <= Pow2(92) < BN254_ORDER && TWO64 < BN254_ORDER
  {
    Pow2Grows(splitBits + 2 * hiHalfBits, 92);
    Pow2Values();
    Pow2Adds(32, 60);
  }

  lemma NarrowIsExact(c: Curve, range: nat, m: nat)
    requires c.Valid() && m < range <= c.q && range <= TWO64
    ensures Solve(c, range, c.Mul(m, c.G)) == Some(m)
  {
    SolveMultiple(c, range, m);
    DivModIs(m, c.q, 0, m);
    DivModIs(m, TWO64, 0, m);
  }

  lemma WideLosesHighBits(c: Curve, range: nat)
    requires c.Valid() && TWO64 < range <= c.q
    ensures Solve(c, range, c.Mul(TWO64, c.G)) == Some(0)
  {
    SolveMultiple(c, range, TWO64);
    DivModIs(TWO64, c.q, 0, TWO64);
  }

  /** Every value in the solver's range is recovered exactly. */
  ghost predicate Exact(c: Curve, range: nat)
  {
    forall m: nat :: m < range ==> Solve(c, range, c.Mul(m, c.G)) == Some(m)
  }

  /**
   Every value in range is recovered exactly if and only if splitBits + 2 * hiHalfBits <= 64. Beyond
   that the solver still succeeds, with the value modulo 2^64: 2^64 itself comes back as 0.
   */
  lemma SplitExactIff(c: Curve, splitBits: nat, hiHalfBits: nat)
    requires c.Valid() && SplitRange(splitBits, hiHalfBits) <= c.q
    ensures Exact(c, SplitRange(splitBits, hiHalfBits)) <==> splitBits + 2 * hiHalfBits <= 64
    ensures splitBits + 2 * hiHalfBits > 64 ==>
              Solve(c, SplitRange(splitBits, hiHalfBits), c.Mul(TWO64, c.G)) == Some(0)
  {
    var range := SplitRange(splitBits, hiHalfBits);
    Pow2Values();
    if splitBits + 2 * hiHalfBits <= 64 {
      Pow2Grows(splitBits + 2 * hiHalfBits, 64);
      forall m: nat | m < range ensures Solve(c, range, c.Mul(m, c.G)) == Some(m) {
        NarrowIsExact(c, range, m);
      }
    } else {
      Pow2Grows(65, splitBits + 2 * hiHalfBits);
      WideLosesHighBits(c, range);
    }
  }

  /** Over the same range, the split and the plain solver compute the same partial function. */
  method SplitAgreesWithPlain(split: SplitDecryptionTable, plain: DecryptionTable, mG: Affine)
    returns (a: Option<uint64>, b: Option<uint64>)
    requires split.Valid() && plain.Valid() && plain.c == split.c && plain.base == plain.c.G
    requires split.Range() <= split.c.q
    requires split.splitBits + 2 * split.hiTable.halfBits == 2 * plain.halfBits
    ensures split.c.OnCurve(mG) ==> a == b
  {
    ghost var hi, lo, lookups;
    a, hi, lo, lookups := split.DiscreteLog(mG);
    b, lookups := plain.DiscreteLog(mG);
    HalfBitsBound(plain.halfBits);
    SolveIsSearch(plain.c, plain.Range(), mG);
  }
}
