/** Facts about integer multiplication, division and remainder that the
    byte model relies on. Each is small and stated for Dafny's Euclidean
    `/` and `%`, which agree with C's on the non-negative values used here. */
module Arith {

  lemma MulAtLeast(d: int, k: int)
    requires d > 0 && k >= 1
    ensures d * k >= d
  {
  }

  lemma MulMonotone(a: int, b: int, c: int)
    requires a <= b && c >= 0
    ensures c * a <= c * b
  {
    assert c * b - c * a == c * (b - a);
  }

  /** Quotient and remainder are determined by any Euclidean decomposition. */
  lemma DivUnique(x: int, d: int, q: int, r: int)
    requires d > 0 && 0 <= r < d && x == d * q + r
    ensures x / d == q && x % d == r
  {
    var q', r' := x / d, x % d;
    var k := q - q';
    assert d * q == d * q' + d * k;
    assert d * k == r' - r;
    if k > 0 {
      MulAtLeast(d, k);
    } else if k < 0 {
      MulAtLeast(d, -k);
    }
  }

  /** Halving after dividing by `p` is dividing by `2 * p`. */
  lemma DivHalf(x: nat, p: nat)
    requires p > 0
    ensures x / p / 2 == x / (2 * p)
  {
    var q, r := x / (2 * p), x % (2 * p);
    var h, l := r / p, r % p;
    assert r == p * h + l;
    assert h < 2 by {
      if h >= 2 {
        MulMonotone(2, h, p);
      }
    }
    assert x == p * (2 * q + h) + l;
    DivUnique(x, p, 2 * q + h, l);
    DivUnique(2 * q + h, 2, q, h);
  }

  /** Doubling commutes with reduction modulo 256. */
  lemma DoubleMod(x: nat)
    ensures ((x % 256) * 2) % 256 == (x * 2) % 256
  {
    var q, r := x / 256, x % 256;
    var c, r2 := (2 * r) / 256, (2 * r) % 256;
    assert x * 2 == 256 * (2 * q + c) + r2;
    DivUnique(x * 2, 256, 2 * q + c, r2);
  }

  /** A multiple of a multiple of `m` is a multiple of `m`. */
  lemma MultipleMod(a: nat, b: nat, m: nat)
    requires m > 0 && a % m == 0
    ensures (a * b) % m == 0
  {
    var q := a / m;
    assert a == m * q;
    assert a * b == m * (q * b);
    DivUnique(a * b, m, q * b, 0);
  }
}
