/** The discrete-logarithm problem the solvers answer, by exhaustive search: their specification. */
module DiscreteLogs {
  import opened Scalars
  import opened Curves

  /** The least m >= from below range with m * base == P. */
  function SearchFrom(c: Curve, base: Affine, range: nat, P: Affine, from: nat): Option<nat>
    decreases range - from
  {
    if from >= range then None
    else if c.Mul(from, base) == P then Some(from)
    else SearchFrom(c, base, range, P, from + 1)
  }

  lemma {:induction false} SearchFromSound(c: Curve, base: Affine, range: nat, P: Affine, from: nat)
    ensures var r := SearchFrom(c, base, range, P, from);
            if r.Some? then from <= r.value < range && c.Mul(r.value, base) == P
            else forall m: nat :: from <= m < range ==> c.Mul(m, base) != P
    decreases range - from
  {
    if from < range && c.Mul(from, base) != P {
      SearchFromSound(c, base, range, P, from + 1);
    }
  }

  function LinearSearch(c: Curve, base: Affine, range: nat, P: Affine): Option<nat>
  {
    SearchFrom(c, base, range, P, 0)
  }

  /** The answer of a solver covering [0, range) to the base G, in the 64-bit result type. */
  function Solve(c: Curve, range: nat, P: Affine): Option<uint64>
  {
    match LinearSearch(c, c.G, range, P)
    case None => None
    case Some(m) => Some(m % TWO64)
  }

  /** Within the order of the group the logarithm is unique, so any logarithm found is the least. */
  lemma SearchUnique(c: Curve, base: Affine, range: nat, P: Affine, m: nat)
    requires c.Valid() && c.OnCurve(base) && base != INFINITY && range <= c.q
    requires m < range && c.Mul(m, base) == P
    ensures LinearSearch(c, base, range, P) == Some(m)
  {
    SearchFromSound(c, base, range, P, 0);
    var r := LinearSearch(c, base, range, P);
    if r.Some? {
      MulInjective(c, m, r.value, base);
    }
  }

  lemma SearchFails(c: Curve, base: Affine, range: nat, P: Affine)
    requires forall m: nat :: m < range ==> c.Mul(m, base) != P
    ensures LinearSearch(c, base, range, P) == None
  {
    SearchFromSound(c, base, range, P, 0);
  }

  /** Exactly the multiples of G by scalars below the range are solved; the result is the scalar modulo 2^64. */
  lemma SolveMultiple(c: Curve, range: nat, k: nat)
    requires c.Valid() && range <= c.q
    ensures Solve(c, range, c.Mul(k, c.G)) == if k % c.q < range then Some((k % c.q) % TWO64) else None
  {
    MulMod(c, k, c.G);
    var m := k % c.q;
    if m < range {
      SearchUnique(c, c.G, range, c.Mul(k, c.G), m);
    } else {
      SearchFromSound(c, c.G, range, c.Mul(k, c.G), 0);
      var r := LinearSearch(c, c.G, range, c.Mul(k, c.G));
      if r.Some? {
        MulInjective(c, m, r.value, c.G);
      }
    }
  }

  /** Below 2^64 nothing is lost to the result type. */
  lemma SolveIsSearch(c: Curve, range: nat, P: Affine)
    requires range <= TWO64
    ensures Solve(c, range, P) == LinearSearch(c, c.G, range, P)
  {
    SearchFromSound(c, c.G, range, P, 0);
    var r := LinearSearch(c, c.G, range, P);
    if r.Some? {
      DivModIs(r.value, TWO64, 0, r.value);
    }
  }

  /** The logarithm put together from a high and a low part. */
  function Combined(n: nat, hi: nat, lo: nat): nat
  {
    hi * n + lo
  }

  lemma CombinedInRange(n: nat, range: nat, hi: nat, lo: nat)
    requires hi < range && lo < n
    ensures Combined(n, hi, lo) < n * range
    ensures Combined(n, hi, lo) % n == lo && Combined(n, hi, lo) / n == hi
  {
    assert (hi + 1) * n == hi * n + n;
    assert (hi + 1) * n <= range * n;
    DivModIs(hi * n + lo, n, hi, lo);
  }

  lemma MultiplesCompose(c: Curve, j: nat, n: nat, base: Affine) returns (k: nat)
    requires c.Valid() && c.OnCurve(base)
    ensures k == j * n && c.Mul(k, base) == c.Mul(j, c.Mul(n, base))
  {
    MulMultiplies(c, j, n, base);
    k := j * n;
  }

  /** j steps of -(n * base) from P land on i * base exactly when P is (j * n + i) * base. */
  lemma GiantStep(c: Curve, base: Affine, P: Affine, n: nat, j: nat, i: nat)
    requires c.Valid() && c.OnCurve(base) && c.OnCurve(P)
    ensures c.Plus(P, c.Mul(j, c.Neg(c.Mul(n, base)))) == c.Mul(i, base) <==> P == c.Mul(Combined(n, j, i), base)
  {
    var nBase, iBase := c.Mul(n, base), c.Mul(i, base);
    var jn := c.Mul(j, nBase);
    MulClosed(c, n, base);
    MulClosed(c, i, base);
    MulClosed(c, j, nBase);
    MulNeg(c, j, nBase);
    MinusIff(c, P, jn, iBase);
    var k: nat := MultiplesCompose(c, j, n, base);
    MulAddsTo(c, k, i, Combined(n, j, i), base);
    PlusCommutes(c, jn, iBase);
    assert c.Minus(P, jn) == c.Plus(P, c.Mul(j, c.Neg(nBase)));
  }
}
