// Bytes, and numbers laid out in memory the way a little-endian host lays them out.
module Bytes {
  type byte = x: int | 0 <= x < 256

  // One past the largest size_t of the 64-bit host.
  const SIZE_LIMIT: nat := 0x1_0000_0000_0000_0000

  const UINT32_LIMIT: nat := 0x1_0000_0000

  const UINT16_LIMIT: nat := 0x1_0000

  function Min(a: nat, b: nat): nat {
    if a < b then a else b
  }

  function Pow256(k: nat): (p: nat)
    ensures p > 0
  {
    if k == 0 then 1 else 256 * Pow256(k - 1)
  }

  // The number whose little-endian bytes are bs.
  function ToNat(bs: seq<byte>): nat {
    if bs == [] then 0 else bs[0] + 256 * ToNat(bs[1..])
  }

  // The low `width` bytes of n, least significant first.
  function FromNat(n: nat, width: nat): (bs: seq<byte>)
    ensures |bs| == width
  {
    if width == 0 then [] else [n % 256] + FromNat(n / 256, width - 1)
  }

  // The number whose little-endian two's complement bytes are bs.
  function ToInt(bs: seq<byte>): int {
    var n := ToNat(bs);
    if 2 * n >= Pow256(|bs|) then n - Pow256(|bs|) else n
  }

  lemma {:induction false} ToNatBound(bs: seq<byte>)
    ensures ToNat(bs) < Pow256(|bs|)
  {
    if bs != [] {
      ToNatBound(bs[1..]);
    }
  }

  // Keeping `width` bytes of a number keeps it modulo 256^width.
  lemma {:induction false} FromNatToNat(n: nat, width: nat)
    ensures ToNat(FromNat(n, width)) == n % Pow256(width)
  {
    if width == 0 {
    } else {
      FromNatToNat(n / 256, width - 1);
      var bs := FromNat(n, width);
      assert bs[1..] == FromNat(n / 256, width - 1);
      var p := Pow256(width - 1);
      assert ToNat(bs) == n % 256 + 256 * ((n / 256) % p);
      SplitModulus(n, p);
    }
  }

  // Bytes are determined by the number they spell.
  lemma {:induction false} ToNatFromNat(bs: seq<byte>)
    ensures FromNat(ToNat(bs), |bs|) == bs
  {
    if bs != [] {
      ToNatFromNat(bs[1..]);
      ModulusUnique(ToNat(bs), 256, ToNat(bs[1..]), bs[0]);
    }
  }

  lemma SplitModulus(n: nat, p: nat)
    requires p > 0
    ensures n % (256 * p) == n % 256 + 256 * ((n / 256) % p)
  {
    var m, r := n / 256, n % 256;
    var q, s := m / p, m % p;
    assert n == (256 * p) * q + (256 * s + r) by {
      assert m == p * q + s;
      assert n == 256 * m + r;
      assert 256 * (p * q) == (256 * p) * q;
    }
    assert 256 * s + r < 256 * p;
    ModulusUnique(n, 256 * p, q, 256 * s + r);
  }

  lemma ModulusUnique(n: int, d: int, q: int, r: int)
    requires d > 0 && 0 <= r < d && n == d * q + r
    ensures n / d == q && n % d == r
  {
    var k := q - n / d;
    assert d * k == n % d - r by {
      assert n == d * (n / d) + n % d;
      assert d * k == d * q - d * (n / d);
    }
    ZeroMultiple(d, k);
  }

  lemma ZeroMultiple(d: int, k: int)
    requires d > 0 && -d < d * k < d
    ensures k == 0
  {
    MultipleAtLeast(d, k);
    MultipleAtLeast(d, -k);
  }

  lemma MultipleAtLeast(d: int, k: int)
    requires d > 0
    ensures k >= 1 ==> d * k >= d
  {
    assert d * k == d + d * (k - 1);
  }

  lemma ShrinkingQuotient(n: nat, d: nat)
    requires d > 0
    ensures n / d <= n
  {
    var q := n / d;
    assert n == d * q + n % d;
    MultipleAtLeast(q + 1, d);
    assert (q + 1) * d == d * q + d;
  }

  lemma FewerItems(k: nat, n: nat, itemSize: nat)
    requires k <= n
    ensures 0 <= k * itemSize <= n * itemSize
  {
    assert n * itemSize == k * itemSize + (n - k) * itemSize;
  }

  // The counts whose fields are 1 to 4 bytes wide.
  lemma Widths()
    ensures Pow256(1) == 0x100 && Pow256(2) == UINT16_LIMIT && Pow256(3) == 0x100_0000 && Pow256(4) == UINT32_LIMIT
  {
    assert Pow256(1) == 256;
    assert Pow256(2) == 65536;
    assert Pow256(3) == 16777216;
  }

  // A field of a packed structure.
  function Field(bs: seq<byte>, at: nat, width: nat): nat
    requires at + width <= |bs|
  {
    ToNat(bs[at..at + width])
  }

  lemma FieldOfPrinted(bs: seq<byte>, at: nat, width: nat, n: nat)
    requires at + width <= |bs| && bs[at..at + width] == FromNat(n, width)
    requires n < Pow256(width)
    ensures Field(bs, at, width) == n
  {
    FromNatToNat(n, width);
    ModulusUnique(n, Pow256(width), 0, n);
  }
}
