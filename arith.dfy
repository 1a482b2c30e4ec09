/** Powers of two and the few facts about Euclidean division that block alignment needs. */
module Arith {

  /** 2^n */
  function Pow2(n: nat): (p: nat)
    ensures p >= 1
  {
    if n == 0 then 1 else 2 * Pow2(n - 1)
  }

  lemma {:induction false} Pow2Add(m: nat, n: nat)
    ensures Pow2(m + n) == Pow2(m) * Pow2(n)
  {
    if m > 0 {
      Pow2Add(m - 1, n);
      assert Pow2(m + n) == 2 * Pow2(m - 1 + n);
    }
  }

  /** The sizes of the IPv4 and IPv6 address spaces. */
  lemma AddressSpaces()
    ensures Pow2(32) == 0x1_0000_0000
    ensures Pow2(128) == 0x1_0000_0000_0000_0000_0000_0000_0000_0000
  {
    assert Pow2(4) == 16;
    Pow2Add(4, 4);
    assert Pow2(8) == 0x100;
    Pow2Add(8, 8);
    assert Pow2(16) == 0x1_0000;
    Pow2Add(16, 16);
    assert Pow2(32) == 0x1_0000_0000;
    Pow2Add(32, 32);
    assert Pow2(64) == 0x1_0000_0000_0000_0000;
    Pow2Add(64, 64);
  }

  lemma MulAtLeast(d: int, h: int)
    requires d >= 1 && h > 0
    ensures d * h >= h
  {
    assert d * h == (d - 1) * h + h;
    assert (d - 1) * h >= 0;
  }

  /** Quotient and remainder are the only pair with x == q * h + r and 0 <= r < h. */
  lemma DivModUnique(x: int, h: int, q: int, r: int)
    requires h > 0 && 0 <= r < h && x == q * h + r
    ensures x / h == q && x % h == r
  {
    var q', r' := x / h, x % h;
    assert x == q' * h + r';
    if q > q' {
      assert q * h - q' * h == (q - q') * h;
      MulAtLeast(q - q', h);
      assert false;
    } else if q < q' {
      assert q' * h - q * h == (q' - q) * h;
      MulAtLeast(q' - q, h);
      assert false;
    }
  }

  lemma MulNonneg(a: int, b: int)
    requires a >= 0 && b >= 0
    ensures a * b >= 0
  {
  }

  /** The largest multiple of n that is at most x. */
  function RoundDown(x: nat, n: nat): (r: nat)
    requires n > 0
    ensures r <= x < r + n && r % n == 0
  {
    var q := x / n;
    MulNonneg(q, n);
    DivModUnique(q * n, n, q, 0);
    q * n
  }

  /** A base aligned to 2^level splits into two halves aligned to 2^(level-1). */
  lemma Halves(base: nat, level: nat)
    requires level > 0 && base % Pow2(level) == 0
    ensures Pow2(level) == 2 * Pow2(level - 1)
    ensures base % Pow2(level - 1) == 0
    ensures (base + Pow2(level - 1)) % Pow2(level - 1) == 0
  {
    var h := Pow2(level - 1);
    var p := Pow2(level);
    var q := base / p;
    assert base == q * p + base % p;
    assert base == (2 * q) * h;
    DivModUnique(base, h, 2 * q, 0);
    assert base + h == (2 * q + 1) * h;
    DivModUnique(base + h, h, 2 * q + 1, 0);
  }

  /** Rounding either half of an aligned 2^level block down to a multiple of 2^level gives its base. */
  lemma RoundHalves(base: nat, level: nat)
    requires level > 0 && base % Pow2(level) == 0
    ensures RoundDown(base, Pow2(level)) == base
    ensures RoundDown(base + Pow2(level - 1), Pow2(level)) == base
  {
    var h := Pow2(level - 1);
    var p := Pow2(level);
    var q := base / p;
    assert base == q * p + base % p;
    DivModUnique(base + h, p, q, h);
  }

  lemma MulMono(u: int, v: int, p: int)
    requires u <= v && p >= 0
    ensures u * p <= v * p
  {
    MulNonneg(v - u, p);
    assert v * p - u * p == (v - u) * p;
  }

  lemma MulLess(u: int, v: int, p: int)
    requires p > 0 && u * p < v * p
    ensures u < v
  {
    if v <= u {
      MulMono(v, u, p);
    }
  }

  /** Of two distinct multiples of p, the smaller is at least p below the larger. */
  lemma AlignedGap(u: nat, w: nat, p: nat)
    requires p > 0 && u % p == 0 && w % p == 0 && u < w
    ensures u + p <= w
  {
    var c, d := u / p, w / p;
    assert u == c * p && w == d * p;
    MulLess(c, d, p);
    MulMono(c + 1, d, p);
    assert (c + 1) * p == c * p + p;
  }

  lemma NextMultiple(x: nat, p: nat)
    requires p > 0 && x % p == 0
    ensures (x + p) % p == 0
  {
    var c := x / p;
    assert x == c * p;
    assert x + p == (c + 1) * p;
    DivModUnique(x + p, p, c + 1, 0);
  }

  /** A multiple of p * m, and the multiple after it, are multiples of p. */
  lemma MultipleOfFactor(y: nat, p: nat, m: nat)
    requires p > 0 && m > 0 && y % (p * m) == 0
    ensures y % p == 0 && (y + p * m) % p == 0
  {
    MulAtLeast(m, p);
    assert p * m == m * p;
    var q := y / (p * m);
    assert y == q * (p * m);
    assert y == (q * m) * p;
    MulNonneg(q, m);
    DivModUnique(y, p, q * m, 0);
    assert y + p * m == (q * m + m) * p;
    DivModUnique(y + p * m, p, q * m + m, 0);
  }

  /**
   * Two aligned power-of-two intervals that share a point are nested: the one
   * of size 2^j lies inside the one of size 2^k when j <= k.
   */
  lemma Nested(x: nat, j: nat, y: nat, k: nat, a: nat)
    requires j <= k && x % Pow2(j) == 0 && y % Pow2(k) == 0
    requires x <= a < x + Pow2(j) && y <= a < y + Pow2(k)
    ensures y <= x && x + Pow2(j) <= y + Pow2(k)
  {
    var p, m := Pow2(j), Pow2(k - j);
    Pow2Add(j, k - j);
    MultipleOfFactor(y, p, m);
    NextMultiple(x, p);
    AlignedGap(y, x + p, p);
    AlignedGap(x, y + p * m, p);
  }
}
