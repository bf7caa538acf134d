/**
 The three key structures shared by both directions, and `generate_key`,
 which fills them from random draws. The generator itself (PCG and its
 seeding) is not modelled: its outputs are taken as inputs, each within the
 bound `pcg32_boundedrand` guarantees.
 */
module Keys {
  import opened Bits
  import EncryptH
  import Table

  /** A value of C's `short`, the type of the stored shift. */
  type short = s: int | -32768 <= s < 32768

  /** Substitution table (or its inverse, on the decrypting side), rotation
      amount, and XOR key. */
  datatype KeyParts = KeyParts(table: seq<byte>, shift: short, key: seq<byte>)

  /** The arrays have the sizes the C declares for them. */
  predicate WellSized(k: KeyParts)
  {
    |k.table| == EncryptH.CharMax && |k.key| == EncryptH.KeySize
  }

  /** The key can drive the byte transforms without undefined behaviour:
      both `shift` and `8 - shift` are valid shift counts. */
  predicate Usable(k: KeyParts)
  {
    WellSized(k) && ShiftDefined(k.shift)
  }

  /** The random numbers `generate_key` consumes, in the order it draws
      them: one index per iteration of `shuffle`, then the shift, then one
      value per key byte. */
  datatype KeyDraws = KeyDraws(swaps: seq<nat>, shift: nat, key: seq<nat>)

  /** Each draw lies below the bound passed to `pcg32_boundedrand`. */
  predicate ValidDraws(d: KeyDraws)
  {
    |d.swaps| == EncryptH.CharMax &&
    (forall k :: 0 <= k < |d.swaps| ==> d.swaps[k] < EncryptH.CharMax) &&
    d.shift < EncryptH.CharBits &&
    |d.key| == EncryptH.KeySize &&
    (forall k :: 0 <= k < |d.key| ==> d.key[k] < EncryptH.CharMax)
  }

  /** `generate_key`: shuffle the identity table, take the shift as a
      `short`, and store each key draw in an `unsigned char`, which keeps
      its value since every draw is below `CHAR_MAX`. */
  function GenerateKey(d: KeyDraws): (k: KeyParts)
    requires ValidDraws(d)
    ensures Usable(k)
    ensures Table.IsPermutation(k.table)
    ensures 0 <= k.shift < EncryptH.CharBits && k.shift == d.shift
    ensures forall i :: 0 <= i < EncryptH.KeySize ==> k.key[i] == d.key[i]
  {
    var table := Table.Shuffle(Table.Identity(), d.swaps);
    KeyParts(table, d.shift, d.key)
  }
}
