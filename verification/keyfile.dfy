/**
 The cipherkey file: `write_key` stores the table, the shift and the key one
 after another, and `read_key` accepts a file only by its exact size, reads
 the three fields back in the same order and inverts the table.
 */
module KeyFile {
  import opened Bits
  import opened Wrappers
  import EncryptH
  import DecryptH
  import Table
  import opened Keys

  /** The two bytes `fwrite` emits for the `short` shift. The byte order of
      the machine is not fixed by the C; this model takes little-endian
      two's complement. */
  function EncodeShort(s: short): (bs: seq<byte>)
    ensures |bs| == 2
  {
    var u := if s < 0 then s as int + 65536 else s as int;
    [u % 256, u / 256]
  }

  /** The `short` that `fread` rebuilds from two stored bytes. */
  function DecodeShort(bs: seq<byte>): (s: short)
    requires |bs| == 2
  {
    var u := bs[0] as int + 256 * bs[1] as int;
    if u >= 32768 then u - 65536 else u
  }

  lemma ShortRoundTrip(s: short)
    ensures DecodeShort(EncodeShort(s)) == s
  {
  }

  lemma ShortBytesRoundTrip(bs: seq<byte>)
    requires |bs| == 2
    ensures EncodeShort(DecodeShort(bs)) == bs
  {
  }

  /** A shift in the generated range [0, 8) is stored as its value followed
      by a zero byte. */
  lemma SmallShiftEncoding(s: short)
    requires 0 <= s < EncryptH.CharBits
    ensures EncodeShort(s) == [s, 0]
  {
  }

  /** The bytes `write_key` writes: table at offsets 0..255, shift at
      256..257, key at 258..289. */
  function SerializeKey(k: KeyParts): (bs: seq<byte>)
    requires WellSized(k)
    ensures |bs| == DecryptH.KeyFileSize
    ensures bs[..EncryptH.CharMax] == k.table
    ensures bs[EncryptH.CharMax..EncryptH.CharMax + 2] == EncodeShort(k.shift)
    ensures bs[EncryptH.CharMax + 2..] == k.key
  {
    var bs := k.table + EncodeShort(k.shift) + k.key;
    assert bs[..EncryptH.CharMax] == k.table;
    assert bs[EncryptH.CharMax..EncryptH.CharMax + 2] == EncodeShort(k.shift);
    bs
  }

  /** The fields `read_key` reads from a file of exactly `KEY_FILE_SIZE`
      bytes, before inverting the table; any other size is rejected. */
  function ParseKeyFile(bs: seq<byte>): (r: Option<KeyParts>)
    ensures r.Some? <==> |bs| == DecryptH.KeyFileSize
    ensures r.Some? ==> WellSized(r.value)
  {
    if |bs| != DecryptH.KeyFileSize then None
    else
      Some(KeyParts(bs[..EncryptH.CharMax],
                    DecodeShort(bs[EncryptH.CharMax..EncryptH.CharMax + 2]),
                    bs[EncryptH.CharMax + 2..]))
  }

  /** Reading back what `write_key` wrote gives the same three fields. */
  lemma ParseSerialize(k: KeyParts)
    requires WellSized(k)
    ensures ParseKeyFile(SerializeKey(k)) == Some(k)
  {
    ShortRoundTrip(k.shift);
  }

  /** Every accepted file is exactly what `write_key` writes for the fields
      read from it. */
  lemma SerializeParse(bs: seq<byte>)
    requires ParseKeyFile(bs).Some?
    ensures SerializeKey(ParseKeyFile(bs).value) == bs
  {
    var k := ParseKeyFile(bs).value;
    ShortBytesRoundTrip(bs[EncryptH.CharMax..EncryptH.CharMax + 2]);
    assert bs == bs[..EncryptH.CharMax] + bs[EncryptH.CharMax..EncryptH.CharMax + 2] + bs[EncryptH.CharMax + 2..];
  }

  /** `read_key`: `Some` holds the inverse table, the shift and the key
      (status 0); `None` is status 1. The file is `None` when it cannot be
      opened; `prior` is the content of the caller's inverse-table array
      before the call. */
  function ReadKey(file: Option<seq<byte>>, prior: seq<byte>): (r: Option<KeyParts>)
    requires |prior| == EncryptH.CharMax
    ensures r.Some? <==> file.Some? && |file.value| == DecryptH.KeyFileSize
    ensures r.Some? ==> WellSized(r.value)
    ensures r.Some? ==> var k := ParseKeyFile(file.value).value;
      r.value.shift == k.shift && r.value.key == k.key &&
      r.value.table == Table.Invert(k.table, prior)
  {
    if file.None? then None
    else
      match ParseKeyFile(file.value)
      case None => None
      case Some(k) => Some(KeyParts(Table.Invert(k.table, prior), k.shift, k.key))
  }

  /** The `int` that `read_key` returns. */
  function ReadKeyStatus(r: Option<KeyParts>): (status: int)
    ensures status == DecryptH.ReadKeyPass || status == DecryptH.ReadKeyFail
    ensures status == DecryptH.ReadKeyPass <==> r.Some?
  {
    if r.Some? then DecryptH.ReadKeyPass else DecryptH.ReadKeyFail
  }

  /** The key file written for generated key material is accepted by
      `read_key`, which recovers the shift and the key and the inverse of the
      substitution table, whatever its array held before. */
  lemma ReadWrittenKey(k: KeyParts, prior: seq<byte>)
    requires WellSized(k) && Table.IsPermutation(k.table) && |prior| == EncryptH.CharMax
    ensures var r := ReadKey(Some(SerializeKey(k)), prior);
      r.Some? && r.value.shift == k.shift && r.value.key == k.key &&
      (forall i :: 0 <= i < EncryptH.CharMax ==> r.value.table[k.table[i]] == i) &&
      (forall b :: 0 <= b < EncryptH.CharMax ==> k.table[r.value.table[b]] == b)
  {
    ParseSerialize(k);
    Table.InvertPermutation(k.table, prior, prior);
  }
}
