/**
 The per-byte transforms of the inner loops of `encrypt` and `decrypt`, and
 their extension to a buffer: the byte at index `i` of a buffer is combined
 with key byte `i % KEY_SIZE`.
 */
module Cipher {
  import opened Bits
  import EncryptH
  import Table
  import opened Keys

  /** The three stages of `encrypt` on the byte at index `i` of its buffer:
      substitute through the table, rotate left by the shift, XOR with the
      key byte `i % 32`. */
  function EncryptByte(k: KeyParts, i: nat, p: byte): byte
    requires Usable(k)
  {
    var substituted := k.table[p];
    var rotated := Rotl(substituted, k.shift);
    Xor(rotated, k.key[i % EncryptH.KeySize])
  }

  /** The three stages of `decrypt` on the byte at index `i` of its buffer:
      XOR with the key byte `i % 32`, rotate right by the shift, substitute
      through the (inverse) table. */
  function DecryptByte(k: KeyParts, i: nat, c: byte): byte
    requires Usable(k)
  {
    var unmasked := Xor(c, k.key[i % EncryptH.KeySize]);
    var rotated := Rotr(unmasked, k.shift);
    k.table[rotated]
  }

  /** `dec` is the decrypting counterpart of `enc`: same shift and key, and
      a table that inverts the permutation `enc.table`, as `read_key` builds
      it. */
  predicate Counterparts(enc: KeyParts, dec: KeyParts)
  {
    Usable(enc) && Usable(dec) && Table.IsPermutation(enc.table) &&
    dec.shift == enc.shift && dec.key == enc.key &&
    (forall p :: 0 <= p < EncryptH.CharMax ==> dec.table[enc.table[p]] == p) &&
    (forall b :: 0 <= b < EncryptH.CharMax ==> enc.table[dec.table[b]] == b)
  }

  /** Decrypting at the same index undoes encrypting, and the other way
      round. */
  lemma ByteRoundTrip(enc: KeyParts, dec: KeyParts, i: nat, b: byte)
    requires Counterparts(enc, dec)
    ensures DecryptByte(dec, i, EncryptByte(enc, i, b)) == b
    ensures EncryptByte(enc, i, DecryptByte(dec, i, b)) == b
  {
    var kb := enc.key[i % EncryptH.KeySize];
    var s := enc.table[b];
    RotrUndoesRotl(s, enc.shift);
    XorInvolutive(Rotl(s, enc.shift), kb);
    var x := Xor(b, kb);
    RotrUndoesRotl(x, enc.shift);
    XorInvolutive(b, kb);
    XorInvolutive(Rotl(Rotr(x, enc.shift), enc.shift), kb);
  }

  /** The decrypting key that `read_key` derives from `enc`. */
  function CounterpartOf(enc: KeyParts): (dec: KeyParts)
    requires Usable(enc) && Table.IsPermutation(enc.table)
    ensures Counterparts(enc, dec)
  {
    Table.InvertPermutation(enc.table, enc.table, enc.table);
    KeyParts(Table.Invert(enc.table, enc.table), enc.shift, enc.key)
  }

  /** With a permutation table and a defined shift, encryption at any index
      is a bijection on byte values: no two bytes encrypt alike, and every
      byte is the encryption of the byte decryption gives for it. */
  lemma EncryptByteBijective(enc: KeyParts, i: nat)
    requires Usable(enc) && Table.IsPermutation(enc.table)
    ensures forall a: byte, b: byte :: EncryptByte(enc, i, a) == EncryptByte(enc, i, b) ==> a == b
    ensures forall c: byte :: EncryptByte(enc, i, DecryptByte(CounterpartOf(enc), i, c)) == c
  {
    var dec := CounterpartOf(enc);
    forall a: byte, b: byte | EncryptByte(enc, i, a) == EncryptByte(enc, i, b)
      ensures a == b
    {
      ByteRoundTrip(enc, dec, i, a);
      ByteRoundTrip(enc, dec, i, b);
    }
    forall c: byte
      ensures EncryptByte(enc, i, DecryptByte(dec, i, c)) == c
    {
      ByteRoundTrip(enc, dec, i, c);
    }
  }

  /** With shift 0 the rotation stage of both directions is the identity. */
  lemma ZeroShiftSkipsRotation(k: KeyParts, i: nat, b: byte)
    requires Usable(k) && k.shift == 0
    ensures EncryptByte(k, i, b) == Xor(k.table[b], k.key[i % EncryptH.KeySize])
    ensures DecryptByte(k, i, b) == k.table[Xor(b, k.key[i % EncryptH.KeySize])]
  {
    RotateByZero(k.table[b]);
    RotateByZero(Xor(b, k.key[i % EncryptH.KeySize]));
  }

  /** The rotation stages of both directions compute the native 8-bit
      rotations. */
  lemma RotationStagesAreNative(k: KeyParts, i: nat, b: byte)
    requires Usable(k)
    ensures EncryptByte(k, i, b) == Xor(NativeRotl(k.table[b], k.shift), k.key[i % EncryptH.KeySize])
    ensures DecryptByte(k, i, b) == k.table[NativeRotr(Xor(b, k.key[i % EncryptH.KeySize]), k.shift)]
  {
    hide Rotl, Rotr, NativeRotl, NativeRotr, Xor;
    RotationsAreNative(k.table[b], k.shift);
    RotationsAreNative(Xor(b, k.key[i % EncryptH.KeySize]), k.shift);
  }

  // ---------------------------------------------------------------------------
  // Buffers

  datatype Direction = Forward | Backward

  function ApplyByte(d: Direction, k: KeyParts, i: nat, b: byte): byte
    requires Usable(k)
  {
    match d
    case Forward => EncryptByte(k, i, b)
    case Backward => DecryptByte(k, i, b)
  }

  /** The byte transform applied to a whole buffer, each byte at its own
      index. */
  function Transform(d: Direction, k: KeyParts, data: seq<byte>): (out: seq<byte>)
    requires Usable(k)
    ensures |out| == |data|
    ensures forall i :: 0 <= i < |data| ==> out[i] == ApplyByte(d, k, i, data[i])
  {
    seq(|data|, i requires 0 <= i < |data| => ApplyByte(d, k, i, data[i]))
  }

  lemma KeyPhase(m: nat, j: nat)
    requires m % EncryptH.KeySize == 0
    ensures (m + j) % EncryptH.KeySize == j % EncryptH.KeySize
  {
  }

  /** A buffer whose length is a multiple of the key size leaves the key
      phase unchanged: transforming two such pieces separately is
      transforming their concatenation. */
  lemma TransformSplits(d: Direction, k: KeyParts, a: seq<byte>, b: seq<byte>)
    requires Usable(k) && |a| % EncryptH.KeySize == 0
    ensures Transform(d, k, a + b) == Transform(d, k, a) + Transform(d, k, b)
  {
    forall j | 0 <= j < |b|
      ensures ApplyByte(d, k, |a| + j, b[j]) == ApplyByte(d, k, j, b[j])
    {
      KeyPhase(|a|, j);
    }
    assert forall i :: |a| <= i < |a| + |b| ==> (a + b)[i] == b[i - |a|];
  }

  /** Decrypting the encrypted buffer with the counterpart key gives back the
      plaintext, and encrypting a decrypted buffer gives back the
      ciphertext. */
  lemma TransformRoundTrip(enc: KeyParts, dec: KeyParts, data: seq<byte>)
    requires Counterparts(enc, dec)
    ensures Transform(Backward, dec, Transform(Forward, enc, data)) == data
    ensures Transform(Forward, enc, Transform(Backward, dec, data)) == data
  {
    forall i | 0 <= i < |data|
      ensures DecryptByte(dec, i, EncryptByte(enc, i, data[i])) == data[i]
      ensures EncryptByte(enc, i, DecryptByte(dec, i, data[i])) == data[i]
    {
      ByteRoundTrip(enc, dec, i, data[i]);
    }
  }
}
