/**
 The compile-time constants of the two C headers. The encrypting and the
 decrypting side each declare their own copies; `DecryptH.AgreesWithEncryptH`
 records that the copies coincide, which is what lets a file encrypted by one
 side be chunked identically by the other.
 */
module EncryptH {

  /** Number of byte values, and so the length of the substitution table. */
  const CharMax: nat := 256

  /** Bits per byte; the generated rotation is drawn from [0, CharBits). */
  const CharBits: nat := 8

  /** Length of the XOR key, which is repeated over the stream. */
  const KeySize: nat := 32

  /** Largest chunk read, transformed and written at once (200 MiB). */
  const MaxBufSize: nat := 209715200

  /** A chunk boundary never falls in the middle of a key period. */
  lemma MaxBufAligned()
    ensures MaxBufSize % KeySize == 0
    ensures MaxBufSize > 0
  {
  }
}

module DecryptH {
  import EncryptH

  const CharMax: nat := 256
  const KeySize: nat := 32
  const MaxBufSize: nat := 209715200

  /** Exact size of a key file: table, a two-byte short, then the key. */
  const KeyFileSize: nat := 290

  /** Status codes returned by `read_key`. */
  const ReadKeyPass: int := 0
  const ReadKeyFail: int := 1

  lemma KeyFileLayout()
    ensures KeyFileSize == CharMax + 2 + KeySize
  {
  }

  lemma AgreesWithEncryptH()
    ensures CharMax == EncryptH.CharMax
    ensures KeySize == EncryptH.KeySize
    ensures MaxBufSize == EncryptH.MaxBufSize
  {
  }

  lemma MaxBufAligned()
    ensures MaxBufSize % KeySize == 0
    ensures MaxBufSize > 0
  {
  }
}
