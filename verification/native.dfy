/** Facts about Dafny's native 8-bit vectors, kept apart from the integer
    model so that each proof sees only bit-vector reasoning. */
module NativeRotate {
  import Arith

  lemma IntRoundTrip(v: int)
    requires 0 <= v < 256
    ensures (v as bv8) as int == v
  {
  }

  lemma ShiftLeft1(b: bv8)
    ensures (b << 1) as int == (b as int * 2) % 256
  {  }

  lemma ShiftRight1(b: bv8)
    ensures (b >> 1) as int == b as int / 2
  {
  }

  lemma ShiftLeft2(b: bv8)
    ensures (b << 2) as int == (b as int * 4) % 256
  {
    var c := b << 1;
    assert b << 2 == c << 1;
    ShiftLeft1(b);
    ShiftLeft1(c);
    Arith.DoubleMod(b as int * 2);
  }

  lemma ShiftRight2(b: bv8)
    ensures (b >> 2) as int == b as int / 4
  {
  }

  lemma ShiftLeft3(b: bv8)
    ensures (b << 3) as int == (b as int * 8) % 256
  {
    var c := b << 2;
    assert b << 3 == c << 1;
    ShiftLeft2(b);
    ShiftLeft1(c);
    Arith.DoubleMod(b as int * 4);
  }

  lemma ShiftRight3(b: bv8)
    ensures (b >> 3) as int == b as int / 8
  {
  }

  lemma ShiftLeft4(b: bv8)
    ensures (b << 4) as int == (b as int * 16) % 256
  {
    var c := b << 3;
    assert b << 4 == c << 1;
    ShiftLeft3(b);
    ShiftLeft1(c);
    Arith.DoubleMod(b as int * 8);
  }

  lemma ShiftRight4(b: bv8)
    ensures (b >> 4) as int == b as int / 16
  {
  }

  lemma ShiftLeft5(b: bv8)
    ensures (b << 5) as int == (b as int * 32) % 256
  {
    var c := b << 4;
    assert b << 5 == c << 1;
    ShiftLeft4(b);
    ShiftLeft1(c);
    Arith.DoubleMod(b as int * 16);
  }

  lemma ShiftRight5(b: bv8)
    ensures (b >> 5) as int == b as int / 32
  {
  }

  lemma ShiftLeft6(b: bv8)
    ensures (b << 6) as int == (b as int * 64) % 256
  {
    var c := b << 5;
    assert b << 6 == c << 1;
    ShiftLeft5(b);
    ShiftLeft1(c);
    Arith.DoubleMod(b as int * 32);
  }

  lemma ShiftRight6(b: bv8)
    ensures (b >> 6) as int == b as int / 64
  {
  }

  lemma ShiftLeft7(b: bv8)
    ensures (b << 7) as int == (b as int * 128) % 256
  {
    var c := b << 6;
    assert b << 7 == c << 1;
    ShiftLeft6(b);
    ShiftLeft1(c);
    Arith.DoubleMod(b as int * 64);
  }

  lemma ShiftRight7(b: bv8)
    ensures (b >> 7) as int == b as int / 128
  {
  }

  lemma DisjointOr(a: bv8, c: bv8)
    requires a & c == 0
    ensures (a | c) as int == a as int + c as int
  {
  }

  lemma RotateSplits(b: bv8, k: nat)
    requires 1 <= k <= 7
    ensures b.RotateLeft(k) == (b << k) | (b >> (8 - k))
    ensures (b << k) & (b >> (8 - k)) == 0
  {
  }

  lemma RotateLeft0(b: bv8)
    ensures b.RotateLeft(0) as int == (b as int * 1) % 256 + b as int / 256
  {
    assert b.RotateLeft(0) == b;
  }

  lemma RotateLeft1(b: bv8)
    ensures b.RotateLeft(1) as int == (b as int * 2) % 256 + b as int / 128
  {
    ShiftLeft1(b);
    ShiftRight7(b);
    RotateSplits(b, 1);
    DisjointOr(b << 1, b >> 7);
  }

  lemma RotateLeft2(b: bv8)
    ensures b.RotateLeft(2) as int == (b as int * 4) % 256 + b as int / 64
  {
    ShiftLeft2(b);
    ShiftRight6(b);
    RotateSplits(b, 2);
    DisjointOr(b << 2, b >> 6);
  }

  lemma RotateLeft3(b: bv8)
    ensures b.RotateLeft(3) as int == (b as int * 8) % 256 + b as int / 32
  {
    ShiftLeft3(b);
    ShiftRight5(b);
    RotateSplits(b, 3);
    DisjointOr(b << 3, b >> 5);
  }

  lemma RotateLeft4(b: bv8)
    ensures b.RotateLeft(4) as int == (b as int * 16) % 256 + b as int / 16
  {
    ShiftLeft4(b);
    ShiftRight4(b);
    RotateSplits(b, 4);
    DisjointOr(b << 4, b >> 4);
  }

  lemma RotateLeft5(b: bv8)
    ensures b.RotateLeft(5) as int == (b as int * 32) % 256 + b as int / 8
  {
    ShiftLeft5(b);
    ShiftRight3(b);
    RotateSplits(b, 5);
    DisjointOr(b << 5, b >> 3);
  }

  lemma RotateLeft6(b: bv8)
    ensures b.RotateLeft(6) as int == (b as int * 64) % 256 + b as int / 4
  {
    ShiftLeft6(b);
    ShiftRight2(b);
    RotateSplits(b, 6);
    DisjointOr(b << 6, b >> 2);
  }

  lemma RotateLeft7(b: bv8)
    ensures b.RotateLeft(7) as int == (b as int * 128) % 256 + b as int / 2
  {
    ShiftLeft7(b);
    ShiftRight1(b);
    RotateSplits(b, 7);
    DisjointOr(b << 7, b >> 1);
  }

  lemma RotateLeft8(b: bv8)
    ensures b.RotateLeft(8) as int == (b as int * 256) % 256 + b as int / 1
  {
    assert b.RotateLeft(8) == b;
  }

}
