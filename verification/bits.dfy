/**
 Byte-level arithmetic of the cipher, written the way C evaluates it: each
 `unsigned char` operand is promoted to a non-negative `int`, the shifts and
 the bitwise operators act on that integer, and the store back into an
 `unsigned char` truncates the result modulo 256.
 */
module Bits {
  import Arith
  import NativeRotate

  /** A value of C's `unsigned char`. */
  type byte = b: int | 0 <= b < 256

  function Pow2(n: nat): (r: nat)
    ensures r > 0
  {
    if n == 0 then 1 else 2 * Pow2(n - 1)
  }

  /** C's `v << r` on a non-negative `int` (a promoted byte shifted by at
      most 8 never overflows). */
  function Shl(v: nat, r: nat): nat
  {
    if r == 0 then v else 2 * Shl(v, r - 1)
  }

  /** C's `v >> r` on a non-negative `int`. */
  function Shr(v: nat, r: nat): nat
  {
    if r == 0 then v else Shr(v, r - 1) / 2
  }

  /** C's `a | b` on non-negative integers, bit by bit from the lowest. */
  function BitOr(a: nat, b: nat): nat
    decreases a + b
  {
    if a == 0 && b == 0 then 0
    else 2 * BitOr(a / 2, b / 2) + (if a % 2 == 1 || b % 2 == 1 then 1 else 0)
  }

  /** C's `a ^ b` on non-negative integers, bit by bit from the lowest. */
  function BitXor(a: nat, b: nat): nat
    decreases a + b
  {
    if a == 0 && b == 0 then 0
    else 2 * BitXor(a / 2, b / 2) + (if a % 2 != b % 2 then 1 else 0)
  }

  /** `(unsigned char)(a ^ k)`: stage 3 of encryption, stage 1 of decryption. */
  function Xor(a: byte, k: byte): byte
  {
    BitXor(a, k) % 256
  }

  /** Whether both rotation expressions are defined in C for shift `r`:
      neither `r` nor `8 - r` may be a negative shift count. */
  predicate ShiftDefined(r: int)
  {
    0 <= r <= 8
  }

  /** `(unsigned char)((v << r) | (v >> (8 - r)))`, stage 2 of encryption. */
  function Rotl(v: byte, r: nat): byte
    requires ShiftDefined(r)
  {
    BitOr(Shl(v, r), Shr(v, 8 - r)) % 256
  }

  /** `(unsigned char)((v >> r) | (v << (8 - r)))`, stage 2 of decryption. */
  function Rotr(v: byte, r: nat): byte
    requires ShiftDefined(r)
  {
    BitOr(Shr(v, r), Shl(v, 8 - r)) % 256
  }

  // ---------------------------------------------------------------------------
  // Bitwise operators on naturals

  lemma {:induction false} BitOrZero(a: nat)
    ensures BitOr(a, 0) == a
  {
    if a != 0 {
      BitOrZero(a / 2);
    }
  }

  lemma {:induction false} BitOrCommutes(a: nat, b: nat)
    ensures BitOr(a, b) == BitOr(b, a)
    decreases a + b
  {
    if a != 0 || b != 0 {
      BitOrCommutes(a / 2, b / 2);
    }
  }

  /** The low `r` bits of `x << r` are clear, so OR-ing in a `y` that fits in
      them is addition. */
  lemma {:induction false} BitOrDisjoint(x: nat, y: nat, r: nat)
    requires y < Pow2(r)
    ensures BitOr(Shl(x, r), y) == Shl(x, r) + y
  {
    if r == 0 {
      BitOrZero(x);
    } else {
      var a := Shl(x, r);
      assert a == 2 * Shl(x, r - 1);
      BitOrDisjoint(x, y / 2, r - 1);
      if a != 0 || y != 0 {
        assert BitOr(a, y) == 2 * BitOr(a / 2, y / 2) + y % 2;
      }
    }
  }

  /** The XOR of two values below `2^n` stays below `2^n`. */
  lemma {:induction false} BitXorBelow(a: nat, b: nat, n: nat)
    requires a < Pow2(n) && b < Pow2(n)
    ensures BitXor(a, b) < Pow2(n)
    decreases a + b
  {
    if a != 0 || b != 0 {
      assert n > 0;
      BitXorBelow(a / 2, b / 2, n - 1);
    }
  }

  lemma {:induction false} BitXorZero(a: nat)
    ensures BitXor(a, 0) == a
  {
    if a != 0 {
      BitXorZero(a / 2);
    }
  }

  /** XOR-ing with the same key twice is the identity. */
  lemma {:induction false} BitXorCancels(a: nat, k: nat)
    ensures BitXor(BitXor(a, k), k) == a
    decreases a + k
  {
    if k == 0 {
      BitXorZero(a);
      BitXorZero(BitXor(a, 0));
    } else {
      var x := BitXor(a, k);
      var y, bit := BitXor(a / 2, k / 2), if a % 2 != k % 2 then 1 else 0;
      assert x / 2 == y && x % 2 == bit by {
        Arith.DivUnique(x, 2, y, bit);
      }
      assert BitXor(y, k / 2) == a / 2 by {
        BitXorCancels(a / 2, k / 2);
      }
    }
  }

  /** The truncation in `Xor` never discards a bit, and XOR-ing with the same
      key byte undoes it: this is what lets decryption strip stage 3. */
  lemma XorInvolutive(a: byte, k: byte)
    ensures Xor(a, k) == BitXor(a, k)
    ensures Xor(Xor(a, k), k) == a
  {
    hide BitXor;
    var x := BitXor(a, k);
    assert x < 256 by {
      BitXorBelow(a, k, 8);
    }
    assert BitXor(x, k) == a by {
      BitXorCancels(a, k);
    }
  }

  lemma {:induction false} ShlValue(v: nat, r: nat)
    ensures Shl(v, r) == v * Pow2(r)
  {
    if r > 0 {
      ShlValue(v, r - 1);
      assert v * Pow2(r) == 2 * (v * Pow2(r - 1));
    }
  }

  lemma {:induction false} ShrValue(v: nat, r: nat)
    ensures Shr(v, r) == v / Pow2(r)
  {
    if r > 0 {
      ShrValue(v, r - 1);
      Arith.DivHalf(v, Pow2(r - 1));
    }
  }

  // ---------------------------------------------------------------------------
  // Rotations

  /** The decrypting rotation by `r` is the encrypting rotation by `8 - r`. */
  lemma RotrIsRotl(v: byte, r: nat)
    requires ShiftDefined(r)
    ensures Rotr(v, r) == Rotl(v, 8 - r)
  {
    hide BitOr, Shl, Shr;
    var lo, hi := Shr(v, r), Shl(v, 8 - r);
    BitOrCommutes(lo, hi);
    assert Rotl(v, 8 - r) == BitOr(hi, lo) % 256;
  }

  // For each shift amount `k` the rotation is fixed arithmetic on `v`: split
  // `v` at bit `8 - k` into a high part `h` and a low part `l`; the rotation
  // moves `l` up by `k` bits and `h` down to the bottom.
  //
  // The facts are stated once per shift value, with the powers of two
  // written as literals (including the degenerate `* 1` and `/ 1` at the
  // ends). Stated once over a symbolic `k` with `Pow2(k)`, they become
  // nonlinear arithmetic that the solver proves only on some random seeds.

  lemma SplitAt0(v: byte)
    ensures v / 256 < 1
    ensures (v * 1) % 256 == 1 * (v % 256)
    ensures (v * 1 + v / 256) % 256 == (v * 1) % 256 + v / 256
  {
    var h, l := v / 256, v % 256;
    assert v * 1 == 256 * h + 1 * l;
    Arith.DivUnique(v * 1, 256, h, 1 * l);
    Arith.DivUnique(v * 1 + h, 256, h, 1 * l + h);
  }

  lemma UndoAt0(v: byte)
    ensures var w := (v * 1) % 256 + v / 256; (w * 256) % 256 + w / 1 == v
  {
    var h, l := v / 256, v % 256;
    SplitAt0(v);
    var w := 1 * l + h;
    assert w * 256 == 256 * l + 256 * h;
    Arith.DivUnique(w * 256, 256, l, 256 * h);
    Arith.DivUnique(w, 1, l, h);
  }

  lemma SplitAt1(v: byte)
    ensures v / 128 < 2
    ensures (v * 2) % 256 == 2 * (v % 128)
    ensures (v * 2 + v / 128) % 256 == (v * 2) % 256 + v / 128
  {
    var h, l := v / 128, v % 128;
    assert v * 2 == 256 * h + 2 * l;
    Arith.DivUnique(v * 2, 256, h, 2 * l);
    Arith.DivUnique(v * 2 + h, 256, h, 2 * l + h);
  }

  lemma UndoAt1(v: byte)
    ensures var w := (v * 2) % 256 + v / 128; (w * 128) % 256 + w / 2 == v
  {
    var h, l := v / 128, v % 128;
    SplitAt1(v);
    var w := 2 * l + h;
    assert w * 128 == 256 * l + 128 * h;
    Arith.DivUnique(w * 128, 256, l, 128 * h);
    Arith.DivUnique(w, 2, l, h);
  }

  lemma SplitAt2(v: byte)
    ensures v / 64 < 4
    ensures (v * 4) % 256 == 4 * (v % 64)
    ensures (v * 4 + v / 64) % 256 == (v * 4) % 256 + v / 64
  {
    var h, l := v / 64, v % 64;
    assert v * 4 == 256 * h + 4 * l;
    Arith.DivUnique(v * 4, 256, h, 4 * l);
    Arith.DivUnique(v * 4 + h, 256, h, 4 * l + h);
  }

  lemma UndoAt2(v: byte)
    ensures var w := (v * 4) % 256 + v / 64; (w * 64) % 256 + w / 4 == v
  {
    var h, l := v / 64, v % 64;
    SplitAt2(v);
    var w := 4 * l + h;
    assert w * 64 == 256 * l + 64 * h;
    Arith.DivUnique(w * 64, 256, l, 64 * h);
    Arith.DivUnique(w, 4, l, h);
  }

  lemma SplitAt3(v: byte)
    ensures v / 32 < 8
    ensures (v * 8) % 256 == 8 * (v % 32)
    ensures (v * 8 + v / 32) % 256 == (v * 8) % 256 + v / 32
  {
    var h, l := v / 32, v % 32;
    assert v * 8 == 256 * h + 8 * l;
    Arith.DivUnique(v * 8, 256, h, 8 * l);
    Arith.DivUnique(v * 8 + h, 256, h, 8 * l + h);
  }

  lemma UndoAt3(v: byte)
    ensures var w := (v * 8) % 256 + v / 32; (w * 32) % 256 + w / 8 == v
  {
    var h, l := v / 32, v % 32;
    SplitAt3(v);
    var w := 8 * l + h;
    assert w * 32 == 256 * l + 32 * h;
    Arith.DivUnique(w * 32, 256, l, 32 * h);
    Arith.DivUnique(w, 8, l, h);
  }

  lemma SplitAt4(v: byte)
    ensures v / 16 < 16
    ensures (v * 16) % 256 == 16 * (v % 16)
    ensures (v * 16 + v / 16) % 256 == (v * 16) % 256 + v / 16
  {
    var h, l := v / 16, v % 16;
    assert v * 16 == 256 * h + 16 * l;
    Arith.DivUnique(v * 16, 256, h, 16 * l);
    Arith.DivUnique(v * 16 + h, 256, h, 16 * l + h);
  }

  lemma UndoAt4(v: byte)
    ensures var w := (v * 16) % 256 + v / 16; (w * 16) % 256 + w / 16 == v
  {
    var h, l := v / 16, v % 16;
    SplitAt4(v);
    var w := 16 * l + h;
    assert w * 16 == 256 * l + 16 * h;
    Arith.DivUnique(w * 16, 256, l, 16 * h);
    Arith.DivUnique(w, 16, l, h);
  }

  lemma SplitAt5(v: byte)
    ensures v / 8 < 32
    ensures (v * 32) % 256 == 32 * (v % 8)
    ensures (v * 32 + v / 8) % 256 == (v * 32) % 256 + v / 8
  {
    var h, l := v / 8, v % 8;
    assert v * 32 == 256 * h + 32 * l;
    Arith.DivUnique(v * 32, 256, h, 32 * l);
    Arith.DivUnique(v * 32 + h, 256, h, 32 * l + h);
  }

  lemma UndoAt5(v: byte)
    ensures var w := (v * 32) % 256 + v / 8; (w * 8) % 256 + w / 32 == v
  {
    var h, l := v / 8, v % 8;
    SplitAt5(v);
    var w := 32 * l + h;
    assert w * 8 == 256 * l + 8 * h;
    Arith.DivUnique(w * 8, 256, l, 8 * h);
    Arith.DivUnique(w, 32, l, h);
  }

  lemma SplitAt6(v: byte)
    ensures v / 4 < 64
    ensures (v * 64) % 256 == 64 * (v % 4)
    ensures (v * 64 + v / 4) % 256 == (v * 64) % 256 + v / 4
  {
    var h, l := v / 4, v % 4;
    assert v * 64 == 256 * h + 64 * l;
    Arith.DivUnique(v * 64, 256, h, 64 * l);
    Arith.DivUnique(v * 64 + h, 256, h, 64 * l + h);
  }

  lemma UndoAt6(v: byte)
    ensures var w := (v * 64) % 256 + v / 4; (w * 4) % 256 + w / 64 == v
  {
    var h, l := v / 4, v % 4;
    SplitAt6(v);
    var w := 64 * l + h;
    assert w * 4 == 256 * l + 4 * h;
    Arith.DivUnique(w * 4, 256, l, 4 * h);
    Arith.DivUnique(w, 64, l, h);
  }

  lemma SplitAt7(v: byte)
    ensures v / 2 < 128
    ensures (v * 128) % 256 == 128 * (v % 2)
    ensures (v * 128 + v / 2) % 256 == (v * 128) % 256 + v / 2
  {
    var h, l := v / 2, v % 2;
    assert v * 128 == 256 * h + 128 * l;
    Arith.DivUnique(v * 128, 256, h, 128 * l);
    Arith.DivUnique(v * 128 + h, 256, h, 128 * l + h);
  }

  lemma UndoAt7(v: byte)
    ensures var w := (v * 128) % 256 + v / 2; (w * 2) % 256 + w / 128 == v
  {
    var h, l := v / 2, v % 2;
    SplitAt7(v);
    var w := 128 * l + h;
    assert w * 2 == 256 * l + 2 * h;
    Arith.DivUnique(w * 2, 256, l, 2 * h);
    Arith.DivUnique(w, 128, l, h);
  }

  lemma SplitAt8(v: byte)
    ensures v / 1 < 256
    ensures (v * 256) % 256 == 256 * (v % 1)
    ensures (v * 256 + v / 1) % 256 == (v * 256) % 256 + v / 1
  {
    var h, l := v / 1, v % 1;
    assert v * 256 == 256 * h + 256 * l;
    Arith.DivUnique(v * 256, 256, h, 256 * l);
    Arith.DivUnique(v * 256 + h, 256, h, 256 * l + h);
  }

  lemma UndoAt8(v: byte)
    ensures var w := (v * 256) % 256 + v / 1; (w * 1) % 256 + w / 256 == v
  {
    var h, l := v / 1, v % 1;
    SplitAt8(v);
    var w := 256 * l + h;
    assert w * 1 == 256 * l + 1 * h;
    Arith.DivUnique(w * 1, 256, l, 1 * h);
    Arith.DivUnique(w, 256, l, h);
  }

  lemma RotlAt0(v: byte)
    ensures Rotl(v, 0) == (v * 1) % 256 + v / 256
  {
    hide BitOr, Shl, Shr;
    var hi, lo := Shl(v, 0), Shr(v, 8);
    assert hi == v * 1 by {
      ShlValue(v, 0);
    }
    assert lo == v / 256 by {
      ShrValue(v, 8);
    }
    SplitAt0(v);
    BitOrDisjoint(v, lo, 0);
  }

  lemma RotlAt1(v: byte)
    ensures Rotl(v, 1) == (v * 2) % 256 + v / 128
  {
    hide BitOr, Shl, Shr;
    var hi, lo := Shl(v, 1), Shr(v, 7);
    assert hi == v * 2 by {
      ShlValue(v, 1);
    }
    assert lo == v / 128 by {
      ShrValue(v, 7);
    }
    SplitAt1(v);
    BitOrDisjoint(v, lo, 1);
  }

  lemma RotlAt2(v: byte)
    ensures Rotl(v, 2) == (v * 4) % 256 + v / 64
  {
    hide BitOr, Shl, Shr;
    var hi, lo := Shl(v, 2), Shr(v, 6);
    assert hi == v * 4 by {
      ShlValue(v, 2);
    }
    assert lo == v / 64 by {
      ShrValue(v, 6);
    }
    SplitAt2(v);
    BitOrDisjoint(v, lo, 2);
  }

  lemma RotlAt3(v: byte)
    ensures Rotl(v, 3) == (v * 8) % 256 + v / 32
  {
    hide BitOr, Shl, Shr;
    var hi, lo := Shl(v, 3), Shr(v, 5);
    assert hi == v * 8 by {
      ShlValue(v, 3);
    }
    assert lo == v / 32 by {
      ShrValue(v, 5);
    }
    SplitAt3(v);
    BitOrDisjoint(v, lo, 3);
  }

  lemma RotlAt4(v: byte)
    ensures Rotl(v, 4) == (v * 16) % 256 + v / 16
  {
    hide BitOr, Shl, Shr;
    var hi, lo := Shl(v, 4), Shr(v, 4);
    assert hi == v * 16 by {
      ShlValue(v, 4);
    }
    assert lo == v / 16 by {
      ShrValue(v, 4);
    }
    SplitAt4(v);
    BitOrDisjoint(v, lo, 4);
  }

  lemma RotlAt5(v: byte)
    ensures Rotl(v, 5) == (v * 32) % 256 + v / 8
  {
    hide BitOr, Shl, Shr;
    var hi, lo := Shl(v, 5), Shr(v, 3);
    assert hi == v * 32 by {
      ShlValue(v, 5);
    }
    assert lo == v / 8 by {
      ShrValue(v, 3);
    }
    SplitAt5(v);
    BitOrDisjoint(v, lo, 5);
  }

  lemma RotlAt6(v: byte)
    ensures Rotl(v, 6) == (v * 64) % 256 + v / 4
  {
    hide BitOr, Shl, Shr;
    var hi, lo := Shl(v, 6), Shr(v, 2);
    assert hi == v * 64 by {
      ShlValue(v, 6);
    }
    assert lo == v / 4 by {
      ShrValue(v, 2);
    }
    SplitAt6(v);
    BitOrDisjoint(v, lo, 6);
  }

  lemma RotlAt7(v: byte)
    ensures Rotl(v, 7) == (v * 128) % 256 + v / 2
  {
    hide BitOr, Shl, Shr;
    var hi, lo := Shl(v, 7), Shr(v, 1);
    assert hi == v * 128 by {
      ShlValue(v, 7);
    }
    assert lo == v / 2 by {
      ShrValue(v, 1);
    }
    SplitAt7(v);
    BitOrDisjoint(v, lo, 7);
  }

  lemma RotlAt8(v: byte)
    ensures Rotl(v, 8) == (v * 256) % 256 + v / 1
  {
    hide BitOr, Shl, Shr;
    var hi, lo := Shl(v, 8), Shr(v, 0);
    assert hi == v * 256 by {
      ShlValue(v, 8);
    }
    assert lo == v / 1 by {
      ShrValue(v, 0);
    }
    SplitAt8(v);
    BitOrDisjoint(v, lo, 8);
  }

  /** With shift 0 both rotation stages leave the byte alone: `v >> 8` of a
      promoted byte is 0, and `v << 8` is cut off by the truncation. */
  lemma RotateByZero(v: byte)
    ensures Rotl(v, 0) == v
    ensures Rotr(v, 0) == v
  {
    hide Rotl, Rotr;
    RotlAt0(v);
    RotrIsRotl(v, 0);
    RotlAt8(v);
  }

  lemma RoundTripAt0(v: byte)
    ensures Rotr(Rotl(v, 0), 0) == v
    ensures Rotl(Rotr(v, 0), 0) == v
  {
    hide Rotl, Rotr;
    var w, u := Rotl(v, 0), Rotr(v, 0);
    RotlAt0(v);
    RotrIsRotl(w, 0);
    RotlAt8(w);
    UndoAt0(v);
    RotrIsRotl(v, 0);
    RotlAt8(v);
    RotlAt0(u);
    UndoAt8(v);
  }

  lemma RoundTripAt1(v: byte)
    ensures Rotr(Rotl(v, 1), 1) == v
    ensures Rotl(Rotr(v, 1), 1) == v
  {
    hide Rotl, Rotr;
    var w, u := Rotl(v, 1), Rotr(v, 1);
    RotlAt1(v);
    RotrIsRotl(w, 1);
    RotlAt7(w);
    UndoAt1(v);
    RotrIsRotl(v, 1);
    RotlAt7(v);
    RotlAt1(u);
    UndoAt7(v);
  }

  lemma RoundTripAt2(v: byte)
    ensures Rotr(Rotl(v, 2), 2) == v
    ensures Rotl(Rotr(v, 2), 2) == v
  {
    hide Rotl, Rotr;
    var w, u := Rotl(v, 2), Rotr(v, 2);
    RotlAt2(v);
    RotrIsRotl(w, 2);
    RotlAt6(w);
    UndoAt2(v);
    RotrIsRotl(v, 2);
    RotlAt6(v);
    RotlAt2(u);
    UndoAt6(v);
  }

  lemma RoundTripAt3(v: byte)
    ensures Rotr(Rotl(v, 3), 3) == v
    ensures Rotl(Rotr(v, 3), 3) == v
  {
    hide Rotl, Rotr;
    var w, u := Rotl(v, 3), Rotr(v, 3);
    RotlAt3(v);
    RotrIsRotl(w, 3);
    RotlAt5(w);
    UndoAt3(v);
    RotrIsRotl(v, 3);
    RotlAt5(v);
    RotlAt3(u);
    UndoAt5(v);
  }

  lemma RoundTripAt4(v: byte)
    ensures Rotr(Rotl(v, 4), 4) == v
    ensures Rotl(Rotr(v, 4), 4) == v
  {
    hide Rotl, Rotr;
    var w, u := Rotl(v, 4), Rotr(v, 4);
    RotlAt4(v);
    RotrIsRotl(w, 4);
    RotlAt4(w);
    UndoAt4(v);
    RotrIsRotl(v, 4);
    RotlAt4(v);
    RotlAt4(u);
    UndoAt4(v);
  }

  lemma RoundTripAt5(v: byte)
    ensures Rotr(Rotl(v, 5), 5) == v
    ensures Rotl(Rotr(v, 5), 5) == v
  {
    hide Rotl, Rotr;
    var w, u := Rotl(v, 5), Rotr(v, 5);
    RotlAt5(v);
    RotrIsRotl(w, 5);
    RotlAt3(w);
    UndoAt5(v);
    RotrIsRotl(v, 5);
    RotlAt3(v);
    RotlAt5(u);
    UndoAt3(v);
  }

  lemma RoundTripAt6(v: byte)
    ensures Rotr(Rotl(v, 6), 6) == v
    ensures Rotl(Rotr(v, 6), 6) == v
  {
    hide Rotl, Rotr;
    var w, u := Rotl(v, 6), Rotr(v, 6);
    RotlAt6(v);
    RotrIsRotl(w, 6);
    RotlAt2(w);
    UndoAt6(v);
    RotrIsRotl(v, 6);
    RotlAt2(v);
    RotlAt6(u);
    UndoAt2(v);
  }

  lemma RoundTripAt7(v: byte)
    ensures Rotr(Rotl(v, 7), 7) == v
    ensures Rotl(Rotr(v, 7), 7) == v
  {
    hide Rotl, Rotr;
    var w, u := Rotl(v, 7), Rotr(v, 7);
    RotlAt7(v);
    RotrIsRotl(w, 7);
    RotlAt1(w);
    UndoAt7(v);
    RotrIsRotl(v, 7);
    RotlAt1(v);
    RotlAt7(u);
    UndoAt1(v);
  }

  lemma RoundTripAt8(v: byte)
    ensures Rotr(Rotl(v, 8), 8) == v
    ensures Rotl(Rotr(v, 8), 8) == v
  {
    hide Rotl, Rotr;
    var w, u := Rotl(v, 8), Rotr(v, 8);
    RotlAt8(v);
    RotrIsRotl(w, 8);
    RotlAt0(w);
    UndoAt8(v);
    RotrIsRotl(v, 8);
    RotlAt0(v);
    RotlAt8(u);
    UndoAt0(v);
  }

  /** Rotating right by `r` undoes rotating left by `r`, and vice versa. */
  lemma RotrUndoesRotl(v: byte, r: nat)
    requires ShiftDefined(r)
    ensures Rotr(Rotl(v, r), r) == v
    ensures Rotl(Rotr(v, r), r) == v
  {
    if r == 0 {
      RoundTripAt0(v);
    } else if r == 1 {
      RoundTripAt1(v);
    } else if r == 2 {
      RoundTripAt2(v);
    } else if r == 3 {
      RoundTripAt3(v);
    } else if r == 4 {
      RoundTripAt4(v);
    } else if r == 5 {
      RoundTripAt5(v);
    } else if r == 6 {
      RoundTripAt6(v);
    } else if r == 7 {
      RoundTripAt7(v);
    } else {
      RoundTripAt8(v);
    }
  }

  // ---------------------------------------------------------------------------
  // Agreement with the native 8-bit rotations

  /** The native 8-bit left rotation of a byte value. */
  function NativeRotl(v: byte, r: nat): byte
    requires ShiftDefined(r)
  {
    (v as bv8).RotateLeft(r) as int
  }

  /** The native 8-bit right rotation of a byte value. */
  function NativeRotr(v: byte, r: nat): byte
    requires ShiftDefined(r)
  {
    (v as bv8).RotateRight(r) as int
  }

  lemma NativeAt0(v: byte)
    ensures Rotl(v, 0) == NativeRotl(v, 0)
    ensures Rotr(v, 0) == NativeRotr(v, 0)
  {
    hide Rotl, Rotr;
    var b := v as bv8;
    NativeRotate.IntRoundTrip(v);
    NativeRotate.RotateLeft0(b);
    RotlAt0(v);
    NativeRotate.RotateLeft8(b);
    RotlAt8(v);
    RotrIsRotl(v, 0);
    assert b.RotateRight(0) == b.RotateLeft(8);
  }

  lemma NativeAt1(v: byte)
    ensures Rotl(v, 1) == NativeRotl(v, 1)
    ensures Rotr(v, 1) == NativeRotr(v, 1)
  {
    hide Rotl, Rotr;
    var b := v as bv8;
    NativeRotate.IntRoundTrip(v);
    NativeRotate.RotateLeft1(b);
    RotlAt1(v);
    NativeRotate.RotateLeft7(b);
    RotlAt7(v);
    RotrIsRotl(v, 1);
    assert b.RotateRight(1) == b.RotateLeft(7);
  }

  lemma NativeAt2(v: byte)
    ensures Rotl(v, 2) == NativeRotl(v, 2)
    ensures Rotr(v, 2) == NativeRotr(v, 2)
  {
    hide Rotl, Rotr;
    var b := v as bv8;
    NativeRotate.IntRoundTrip(v);
    NativeRotate.RotateLeft2(b);
    RotlAt2(v);
    NativeRotate.RotateLeft6(b);
    RotlAt6(v);
    RotrIsRotl(v, 2);
    assert b.RotateRight(2) == b.RotateLeft(6);
  }

  lemma NativeAt3(v: byte)
    ensures Rotl(v, 3) == NativeRotl(v, 3)
    ensures Rotr(v, 3) == NativeRotr(v, 3)
  {
    hide Rotl, Rotr;
    var b := v as bv8;
    NativeRotate.IntRoundTrip(v);
    NativeRotate.RotateLeft3(b);
    RotlAt3(v);
    NativeRotate.RotateLeft5(b);
    RotlAt5(v);
    RotrIsRotl(v, 3);
    assert b.RotateRight(3) == b.RotateLeft(5);
  }

  lemma NativeAt4(v: byte)
    ensures Rotl(v, 4) == NativeRotl(v, 4)
    ensures Rotr(v, 4) == NativeRotr(v, 4)
  {
    hide Rotl, Rotr;
    var b := v as bv8;
    NativeRotate.IntRoundTrip(v);
    NativeRotate.RotateLeft4(b);
    RotlAt4(v);
    NativeRotate.RotateLeft4(b);
    RotlAt4(v);
    RotrIsRotl(v, 4);
    assert b.RotateRight(4) == b.RotateLeft(4);
  }

  lemma NativeAt5(v: byte)
    ensures Rotl(v, 5) == NativeRotl(v, 5)
    ensures Rotr(v, 5) == NativeRotr(v, 5)
  {
    hide Rotl, Rotr;
    var b := v as bv8;
    NativeRotate.IntRoundTrip(v);
    NativeRotate.RotateLeft5(b);
    RotlAt5(v);
    NativeRotate.RotateLeft3(b);
    RotlAt3(v);
    RotrIsRotl(v, 5);
    assert b.RotateRight(5) == b.RotateLeft(3);
  }

  lemma NativeAt6(v: byte)
    ensures Rotl(v, 6) == NativeRotl(v, 6)
    ensures Rotr(v, 6) == NativeRotr(v, 6)
  {
    hide Rotl, Rotr;
    var b := v as bv8;
    NativeRotate.IntRoundTrip(v);
    NativeRotate.RotateLeft6(b);
    RotlAt6(v);
    NativeRotate.RotateLeft2(b);
    RotlAt2(v);
    RotrIsRotl(v, 6);
    assert b.RotateRight(6) == b.RotateLeft(2);
  }

  lemma NativeAt7(v: byte)
    ensures Rotl(v, 7) == NativeRotl(v, 7)
    ensures Rotr(v, 7) == NativeRotr(v, 7)
  {
    hide Rotl, Rotr;
    var b := v as bv8;
    NativeRotate.IntRoundTrip(v);
    NativeRotate.RotateLeft7(b);
    RotlAt7(v);
    NativeRotate.RotateLeft1(b);
    RotlAt1(v);
    RotrIsRotl(v, 7);
    assert b.RotateRight(7) == b.RotateLeft(1);
  }

  lemma NativeAt8(v: byte)
    ensures Rotl(v, 8) == NativeRotl(v, 8)
    ensures Rotr(v, 8) == NativeRotr(v, 8)
  {
    hide Rotl, Rotr;
    var b := v as bv8;
    NativeRotate.IntRoundTrip(v);
    NativeRotate.RotateLeft8(b);
    RotlAt8(v);
    NativeRotate.RotateLeft0(b);
    RotlAt0(v);
    RotrIsRotl(v, 8);
    assert b.RotateRight(8) == b.RotateLeft(0);
  }

  /** The C rotation expressions agree with the native 8-bit rotations at
      every shift for which they are defined. */
  lemma RotationsAreNative(v: byte, r: nat)
    requires ShiftDefined(r)
    ensures Rotl(v, r) == NativeRotl(v, r)
    ensures Rotr(v, r) == NativeRotr(v, r)
  {
    hide Rotl, Rotr, NativeRotl, NativeRotr;
    if r == 0 {
      NativeAt0(v);
    } else if r == 1 {
      NativeAt1(v);
    } else if r == 2 {
      NativeAt2(v);
    } else if r == 3 {
      NativeAt3(v);
    } else if r == 4 {
      NativeAt4(v);
    } else if r == 5 {
      NativeAt5(v);
    } else if r == 6 {
      NativeAt6(v);
    } else if r == 7 {
      NativeAt7(v);
    } else {
      NativeAt8(v);
    }
  }
}
