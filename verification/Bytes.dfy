/** Byte strings and the fixed-width integer encodings: big-endian for field elements, little-endian for lengths. */
module Bytes {
  import opened Scalars

  type byte = b: nat | b < 256

  type bytes = seq<byte>

  /** The bytes of a string literal of the source. */
  function Ascii(s: string): (b: bytes)
    ensures |b| == |s|
  {
    seq(|s|, i requires 0 <= i < |s| => (s[i] as int) % 256)
  }

  /** Character codes, and so different labels have different bytes. */
  lemma AsciiCodes(s: string)
    requires forall i :: 0 <= i < |s| ==> s[i] < 128 as char
    ensures forall i :: 0 <= i < |s| ==> Ascii(s)[i] == s[i] as int
  {
  }

  function Pow256(n: nat): (r: nat)
    ensures r > 0
  {
    if n == 0 then 1 else 256 * Pow256(n - 1)
  }

  /** Big-endian encoding of the low |width| bytes of n. */
  function ToBigEndian(n: nat, width: nat): (b: bytes)
    ensures |b| == width
    decreases n, width
  {
    if width == 0 then [] else ToBigEndian(n / 256, width - 1) + [n % 256]
  }

  function FromBigEndian(b: bytes): nat
  {
    if b == [] then 0 else FromBigEndian(b[..|b| - 1]) * 256 + b[|b| - 1]
  }

  lemma {:induction false} FromBigEndianBound(b: bytes)
    ensures FromBigEndian(b) < Pow256(|b|)
  {
    if b != [] {
      FromBigEndianBound(b[..|b| - 1]);
    }
  }

  lemma {:induction false} BigEndianRoundTrip(n: nat, width: nat)
    requires n < Pow256(width)
    ensures FromBigEndian(ToBigEndian(n, width)) == n
  {
    if width > 0 {
      BigEndianRoundTrip(n / 256, width - 1);
      var b := ToBigEndian(n, width);
      assert b[..|b| - 1] == ToBigEndian(n / 256, width - 1);
    }
  }

  lemma {:induction false} BigEndianCanonical(b: bytes)
    ensures ToBigEndian(FromBigEndian(b), |b|) == b
  {
    if b != [] {
      var n := FromBigEndian(b[..|b| - 1]);
      BigEndianCanonical(b[..|b| - 1]);
      assert (n * 256 + b[|b| - 1]) / 256 == n && (n * 256 + b[|b| - 1]) % 256 == b[|b| - 1];
    }
  }

  lemma BigEndianInjective(m: nat, n: nat, width: nat)
    requires m < Pow256(width) && n < Pow256(width)
    requires ToBigEndian(m, width) == ToBigEndian(n, width)
    ensures m == n
  {
    BigEndianRoundTrip(m, width);
    BigEndianRoundTrip(n, width);
  }

  /** Dividing by 256 moves every digit down by one. */
  lemma NextDigit(n: nat, i: nat)
    ensures n / 256 / Pow256(i) == n / Pow256(i + 1)
  {
    var a, b, P := n / 256, n % 256, Pow256(i);
    var k, r := a / P, a % P;
    DivMod(a, P);
    ScaleProduct(256, P, k);
    assert n == k * Pow256(i + 1) + (256 * r + b);
    DivModIs(n, Pow256(i + 1), k, 256 * r + b);
  }

  /** The byte at position i from the right is the i-th base-256 digit. */
  lemma {:induction false} BigEndianAt(n: nat, width: nat, i: nat)
    requires i < width
    ensures ToBigEndian(n, width)[width - 1 - i] == n / Pow256(i) % 256
  {
    if i > 0 {
      BigEndianAt(n / 256, width - 1, i - 1);
      NextDigit(n, i - 1);
    }
  }

  /** The byte at position i from the left is the i-th base-256 digit. */
  lemma {:induction false} LittleEndianAt(n: nat, width: nat, i: nat)
    requires i < width
    ensures ToLittleEndian(n, width)[i] == n / Pow256(i) % 256
  {
    if i > 0 {
      LittleEndianAt(n / 256, width - 1, i - 1);
      NextDigit(n, i - 1);
    }
  }

  /** A number below k * 256^(width - 1) has a leading byte below k. */
  lemma {:induction false} LeadingByte(n: nat, width: nat, k: nat)
    requires width > 0 && n < k * Pow256(width - 1)
    ensures ToBigEndian(n, width)[0] < k
  {
    if width == 1 {
      assert n < k;
    } else {
      assert k * (256 * Pow256(width - 2)) == 256 * (k * Pow256(width - 2));
      LeadingByte(n / 256, width - 1, k);
      assert ToBigEndian(n, width)[0] == ToBigEndian(n / 256, width - 1)[0];
    }
  }

  lemma Pow256Values()
    ensures Pow256(4) == 0x1_0000_0000 && Pow256(8) == 0x1_0000_0000_0000_0000
    ensures Pow256(31) == 0x1_0000_0000_0000_0000_0000_0000_0000_0000_0000_0000_0000_0000_0000_0000_0000_00
    ensures Pow256(32) == 0x1_0000_0000_0000_0000_0000_0000_0000_0000_0000_0000_0000_0000_0000_0000_0000_0000
  {
    Pow256Adds(4, 4);
    Pow256Adds(8, 8);
    Pow256Adds(16, 8);
    Pow256Adds(24, 4);
    Pow256Adds(28, 3);
  }

  lemma {:induction false} Pow256Adds(a: nat, b: nat)
    ensures Pow256(a + b) == Pow256(a) * Pow256(b)
  {
    if a > 0 {
      Pow256Adds(a - 1, b);
      ScaleProduct(256, Pow256(a - 1), Pow256(b));
    }
  }

  /** Little-endian encoding of the low |width| bytes of n. */
  function ToLittleEndian(n: nat, width: nat): (b: bytes)
    ensures |b| == width
    decreases n, width
  {
    if width == 0 then [] else [n % 256] + ToLittleEndian(n / 256, width - 1)
  }

  function FromLittleEndian(b: bytes): nat
  {
    if b == [] then 0 else FromLittleEndian(b[1..]) * 256 + b[0]
  }

  lemma {:induction false} FromLittleEndianBound(b: bytes)
    ensures FromLittleEndian(b) < Pow256(|b|)
  {
    if b != [] {
      FromLittleEndianBound(b[1..]);
    }
  }

  lemma {:induction false} LittleEndianRoundTrip(n: nat, width: nat)
    requires n < Pow256(width)
    ensures FromLittleEndian(ToLittleEndian(n, width)) == n
  {
    if width > 0 {
      LittleEndianRoundTrip(n / 256, width - 1);
      assert ToLittleEndian(n, width)[1..] == ToLittleEndian(n / 256, width - 1);
    }
  }

  lemma LittleEndianInjective(m: nat, n: nat, width: nat)
    requires m < Pow256(width) && n < Pow256(width)
    requires ToLittleEndian(m, width) == ToLittleEndian(n, width)
    ensures m == n
  {
    LittleEndianRoundTrip(m, width);
    LittleEndianRoundTrip(n, width);
  }
}
