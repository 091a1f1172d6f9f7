/** The scalar field: integers modulo the group order, and the fixed-width integers of the source. */
module Scalars {

  const TWO64: nat := 0x1_0000_0000_0000_0000

  type uint64 = x: nat | x < TWO64

  datatype Option<+T> = None | Some(value: T)

  function Pow2(k: nat): (r: nat)
    ensures r > 0
  {
    if k == 0 then 1 else 2 * Pow2(k - 1)
  }

  lemma {:induction false} Pow2Adds(a: nat, b: nat)
    ensures Pow2(a + b) == Pow2(a) * Pow2(b)
  {
    if a > 0 {
      Pow2Adds(a - 1, b);
      ScaleProduct(2, Pow2(a - 1), Pow2(b));
    }
  }

  lemma ScaleProduct(k: nat, x: nat, y: nat)
    ensures (k * x) * y == k * (x * y)
  {
  }

  lemma {:induction false} Pow2Grows(a: nat, b: nat)
    requires a <= b
    ensures Pow2(a) <= Pow2(b)
  {
    if a < b {
      Pow2Grows(a, b - 1);
    }
  }

  lemma Pow2Values()
    ensures Pow2(30) == 0x4000_0000 && Pow2(32) == 0x1_0000_0000
    ensures Pow2(60) == 0x1000_0000_0000_0000 && Pow2(64) == TWO64
  {
    assert Pow2(10) == 1024;
    Pow2Adds(10, 10);
    Pow2Adds(20, 10);
    Pow2Adds(30, 2);
    Pow2Adds(30, 30);
    Pow2Adds(32, 32);
  }

  // ---------- arithmetic modulo q ----------

  function AddQ(q: nat, a: nat, b: nat): (r: nat)
    requires q > 0
    ensures r < q
  {
    (a + b) % q
  }

  function MulQ(q: nat, a: nat, b: nat): (r: nat)
    requires q > 0
    ensures r < q
  {
    (a * b) % q
  }

  /** Every a is a multiple of q plus a % q. */
  lemma DivMod(a: nat, q: nat)
    requires q > 0
    ensures a == q * (a / q) + a % q
  {
  }

  lemma {:induction false} MulAtLeast(d: nat, q: nat)
    requires d > 0
    ensures d * q >= q
  {
    assert d * q == (d - 1) * q + q;
    assert (d - 1) * q >= 0;
  }

  /** Quotient and remainder are unique. */
  lemma DivModUnique(q: int, k: int, r: int, k': int, r': int)
    requires 0 <= r < q && 0 <= r' < q
    requires k * q + r == k' * q + r'
    ensures k == k' && r == r'
  {
    if k < k' {
      assert k' * q - k * q == (k' - k) * q;
      MulAtLeast(k' - k, q);
    } else if k' < k {
      assert k * q - k' * q == (k - k') * q;
      MulAtLeast(k - k', q);
    }
  }

  lemma DivModIs(a: nat, q: nat, k: nat, r: nat)
    requires r < q && a == k * q + r
    ensures a / q == k && a % q == r
  {
    DivModUnique(q, a / q, a % q, k, r);
  }

  lemma SumQuotients(a: nat, b: nat, q: nat)
    ensures (a + b) * q == a * q + b * q
  {
  }

  lemma SumMod(q: nat, k: nat, x: nat)
    requires q > 0
    ensures AddQ(q, k, x % q) == (k + x) % q
  {
    var a, m := Quotient(x, q);
    DivModIs(x, q, a, m);
    var b, r := Quotient(k + m, q);
    DivModIs(k + m, q, b, r);
    SumQuotients(a, b, q);
    DivModIs(k + x, q, a + b, r);
  }

  /** Reducing the product first changes nothing. */
  lemma ResponseIs(q: nat, k: nat, e: nat, w: nat)
    requires q > 0
    ensures AddQ(q, k, MulQ(q, e, w)) == (k + e * w) % q
  {
    SumMod(q, k, e * w);
  }

  /** Subtraction of canonical scalars. */
  function SubQ(q: nat, a: nat, b: nat): (r: nat)
    requires a < q && b < q
    ensures r < q
    ensures AddQ(q, b, r) == a
  {
    DivModIs(a, q, 0, a);
    DivModIs(a + q, q, 1, a);
    if b <= a then a - b else a + q - b
  }

  lemma SubQUnique(q: nat, a: nat, b: nat, r: nat)
    requires a < q && b < q && r < q
    requires AddQ(q, b, r) == a
    ensures r == SubQ(q, a, b)
  {
    if b + r < q {
      DivModIs(b + r, q, 0, b + r);
    } else {
      DivModIs(b + r, q, 1, b + r - q);
    }
  }

  /** The residue of an integer, negative ones included. */
  function ModQ(q: nat, x: int): (r: nat)
    requires q > 0
    ensures r < q
  {
    x % q
  }

  lemma ModQIs(q: nat, x: int, k: int, r: nat)
    requires r < q && x == k * q + r
    ensures ModQ(q, x) == r
  {
    DivModUnique(q, x / q, x % q, k, r);
  }

  lemma ModQAdds(q: nat, x: int, y: int)
    requires q > 0
    ensures AddQ(q, ModQ(q, x), ModQ(q, y)) == ModQ(q, x + y)
  {
    var a, b := ModQ(q, x), ModQ(q, y);
    var s := AddQ(q, a, b);
    assert x == (x / q) * q + a && y == (y / q) * q + b;
    var k := (a + b) / q;
    assert a + b == k * q + s;
    assert (x / q + y / q + k) * q == (x / q) * q + (y / q) * q + k * q;
    ModQIs(q, x + y, x / q + y / q + k, s);
  }

  lemma ModQSubtracts(q: nat, x: int, y: int)
    requires q > 0
    ensures SubQ(q, ModQ(q, x), ModQ(q, y)) == ModQ(q, x - y)
  {
    ModQAdds(q, y, x - y);
    SubQUnique(q, ModQ(q, x), ModQ(q, y), ModQ(q, x - y));
  }

  lemma ModQSmall(q: nat, x: int)
    requires q > 0
    ensures 0 <= x < q ==> ModQ(q, x) == x
    ensures -(q as int) <= x < 0 ==> ModQ(q, x) == q + x
  {
    if 0 <= x < q {
      ModQIs(q, x, 0, x);
    } else if -(q as int) <= x < 0 {
      ModQIs(q, x, -1, q + x);
    }
  }

  // ---------- inverses modulo a prime ----------

  ghost predicate Divides(d: nat, n: nat)
  {
    d > 0 && n % d == 0
  }

  ghost predicate IsPrime(n: nat)
  {
    n >= 2 && forall d: nat {:trigger Divides(d, n)} :: 1 < d < n ==> !Divides(d, n)
  }

  /** a == g * u, b == g * v and g == a * x + b * y. */
  datatype Bezout = Bezout(g: nat, x: int, y: int, u: nat, v: nat)

  lemma {:induction false} ExtendedEuclid(a: nat, b: nat) returns (r: Bezout)
    requires a > 0 || b > 0
    ensures r.g > 0
    ensures a == r.g * r.u && b == r.g * r.v
    ensures r.g == a * r.x + b * r.y
    decreases b
  {
    if b == 0 {
      r := Bezout(a, 1, 0, 1, 0);
    } else {
      var k: nat, m: nat := Quotient(a, b);
      var s := ExtendedEuclid(b, m);
      r := BezoutStep(a, b, k, m, s);
    }
  }

  lemma Quotient(a: nat, b: nat) returns (k: nat, m: nat)
    requires b > 0
    ensures a == k * b + m && m < b
  {
    k, m := a / b, a % b;
  }

  /** One division step carries the Bezout coefficients of (b, m) over to (k * b + m, b). */
  function BezoutStep(a: nat, b: nat, k: nat, m: nat, s: Bezout): (r: Bezout)
    requires a == k * b + m
    requires s.g > 0 && b == s.g * s.u && m == s.g * s.v && s.g == b * s.x + m * s.y
    ensures r.g > 0
    ensures a == r.g * r.u && b == r.g * r.v
    ensures r.g == a * r.x + b * r.y
  {
    BezoutStepHolds(a, b, k, m, s.g, s.x, s.y, s.u, s.v);
    Bezout(s.g, s.y, s.x - k * s.y, k * s.u + s.v, s.u)
  }

  lemma BezoutStepHolds(a: nat, b: nat, k: nat, m: nat, g: nat, x: int, y: int, u: nat, v: nat)
    requires a == k * b + m
    requires b == g * u && m == g * v && g == b * x + m * y
    ensures k * u >= 0
    ensures a == g * (k * u + v)
    ensures g == a * y + b * (x - k * y)
  {
    calc {
      g * (k * u + v);
      g * (k * u) + g * v;
      { assert g * (k * u) == k * (g * u); }
      k * b + m;
    }
    calc {
      a * y + b * (x - k * y);
      { assert a * y == (k * b) * y + m * y; assert b * (x - k * y) == b * x - b * (k * y); }
      (k * b) * y + m * y + b * x - b * (k * y);
      { assert (k * b) * y == b * (k * y); }
      b * x + m * y;
    }
  }

  /** The inverse of a nonzero scalar modulo a prime; it exists by the extended Euclidean algorithm. */
  ghost function Inverse(q: nat, a: nat): (i: nat)
    requires IsPrime(q) && 0 < a < q
    ensures i < q && MulQ(q, i, a) == 1
  {
    InverseExists(q, a);
    var i: nat :| i < q && MulQ(q, i, a) == 1;
    i
  }

  lemma InverseExists(q: nat, a: nat)
    requires IsPrime(q) && 0 < a < q
    ensures exists i: nat :: i < q && MulQ(q, i, a) == 1
  {
    var r := ExtendedEuclid(a, q);
    CoprimeToPrime(q, a, r);
    InverseWitness(q, a, r.x, r.y);
  }

  lemma CoprimeToPrime(q: nat, a: nat, r: Bezout)
    requires IsPrime(q) && 0 < a < q && r.g > 0
    requires a == r.g * r.u && q == r.g * r.v
    ensures r.g == 1
  {
    assert r.u > 0 && r.g <= a;
    DivModIs(q, r.g, r.v, 0);
    assert Divides(r.g, q);
  }

  lemma InverseWitness(q: nat, a: nat, x: int, y: int)
    requires q > 1 && a * x + q * y == 1
    ensures MulQ(q, x % q, a) == 1
  {
    var i, k := x % q, x / q;
    assert x == q * k + i;
    assert i * a == a * x - q * (k * a) == 1 + q * (-y - k * a);
    var j := -y - k * a;
    assert i * a == j * q + 1;
    DivModUnique(q, (i * a) / q, (i * a) % q, j, 1);
  }
}
