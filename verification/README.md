# TinyEncrypter cipher engine in Dafny

TinyEncrypter encrypts a file with a three-stage byte cipher. Each byte of
the plaintext is substituted through a random permutation of 0..255,
rotated left by a random shift in [0, 8), and XORed with byte `i % 32` of a
random 32-byte key, `i` being its index in the current buffer. The table,
the shift and the key are stored in a 290-byte `_cipherkey` file next to
the input. Decryption reads that file back, rejects it unless its measured
size is 290 bytes, inverts the table, and undoes the three stages in reverse order.
Both directions stream the file in chunks of at most `MAX_BUF_SIZE`
(200 MiB) bytes.

The model follows the C source module by module:

| module | file | models |
|---|---|---|
| `EncryptH`, `DecryptH` | headers.dfy | the constants of the two headers |
| `Bits` | bits.dfy | `unsigned char` arithmetic as C evaluates it: promotion to `int`, `<<`, `>>`, `\|`, `^`, truncation |
| `NativeRotate` | native.dfy | facts about 8-bit bit-vector shifts and rotations, to compare the C expression with `bv8` rotation |
| `Arith` | arith.dfy | division and modulus facts the other proofs use |
| `Table` | table.dfy | `shuffle`, permutations of 0..255, and the inverse table loop of `read_key` |
| `Keys` | keys.dfy | the key parts and `generate_key`, with the random draws as input |
| `KeyFile` | keyfile.dfy | the key file layout written by `write_key` and read by `read_key` |
| `Cipher` | cipher.dfy | the per-byte transforms of `encrypt` and `decrypt` and their extension to a buffer |
| `Names` | names.dfy | the `_ciphertext`, `_cipherkey` and `_recovered` output names |
| `Stream` | stream.dfy | the chunk loop both directions share |
| `Encryption` | encrypt.dfy | `write_key` and `encrypt` |
| `Decryption` | decrypt.dfy | `decrypt`, and what `decrypt` does with the files `encrypt` writes |

The file system is not modelled. `encrypt` and `decrypt` take an
environment value instead. It gives the contents of each input file (`None`
when it cannot be opened), whether each output file can be created, and
which pass of the chunk loop fails, if any. The files a run leaves behind
are returned as its result. The PCG generator is replaced by its draws
(`Keys.KeyDraws`), each below the bound passed to `pcg32_boundedrand`.

The rotation `(v << r) | (v >> (8 - r))` is well defined for every shift in
[0, 8] because `v` is promoted to `int` before shifting. With shift 0 it
leaves the byte unchanged: `v >> 8` is 0 for a byte. The model writes the
expression literally on naturals, truncated mod 256. It then proves, one
shift value at a time, that the result equals `bv8` rotation. A shift outside
[0, 8] would give a negative shift count, which is undefined in C. Such a
shift can only come from a key file not written by `write_key`, so it is
excluded by precondition wherever the rotation runs.

## Model

| member | source | states |
|---|---|---|
| EncryptH.MaxBufAligned | includes/encrypt.h:10-11 | the chunk size is positive and a multiple of the key size, so every chunk starts at key phase 0 |
| DecryptH.KeyFileLayout | includes/decrypt.h:5-8 | the key file size is the table size plus two bytes for a `short` plus the key size |
| DecryptH.AgreesWithEncryptH | includes/decrypt.h:5-7 | both headers give the same table size, key size and chunk size, so both directions chunk a file identically |
| DecryptH.MaxBufAligned | includes/decrypt.h:6-7 | the decrypting side's chunk size is also a positive multiple of the key size |
| Bits.XorInvolutive | encrypt.c:239 | XOR with a key byte yields a byte, and XORing with the same key byte again restores the original byte |
| Bits.RotateByZero | encrypt.c:236 | with shift 0 both rotation expressions return the byte unchanged |
| Bits.RotrIsRotl | decrypt.c:174 | the decrypting rotation by `r` equals the encrypting rotation by `8 - r` |
| Bits.RotrUndoesRotl | decrypt.c:174 | for every shift in [0, 8], the decrypting rotation undoes the encrypting one and the encrypting rotation undoes the decrypting one |
| Bits.RotationsAreNative | encrypt.c:236 | for every shift in [0, 8], the truncated C expressions of both directions equal 8-bit rotate-left and rotate-right |
| Table.Swap | encrypt.c:22-24 | one swap exchanges positions `i` and `j`, leaves every other position alone, and keeps the multiset of values |
| Table.ShuffleFrom | encrypt.c:19-25 | the swap loop keeps the length and the multiset of the array |
| Table.Shuffle | encrypt.c:16-27 | `shuffle` yields a rearrangement of its input, and an array of length 0 or 1 is left unchanged |
| Table.PermutationIsBijection | encrypt.c:49-52 | a permutation of the identity table has 256 entries, no value twice, and every byte value somewhere |
| Table.BijectionIsPermutation | encrypt.c:49-52 | conversely, 256 distinct bytes form a permutation of the identity table |
| Table.InvertUpTo | decrypt.c:57-60 | after `n` iterations of the inverse loop, each value among the first `n` table entries maps back to the last of those positions holding it, and every other entry keeps its prior content |
| Table.InvertUndoes | decrypt.c:57-60 | for a permutation, the inverse table undoes the table and the table undoes the inverse table |
| Table.InvertPermutation | decrypt.c:57-60 | the inverse of a permutation is a permutation, and it does not depend on what the array held before |
| Keys.GenerateKey | encrypt.c:42-61 | the generated table is a permutation of 0..255, the shift lies in [0, 8), and the key bytes are the draws |
| KeyFile.ShortRoundTrip | decrypt.c:44 | reading back the two bytes written for a `short` gives the same `short` |
| KeyFile.ShortBytesRoundTrip | encrypt.c:113 | every two stored bytes are what writing the `short` read from them produces |
| KeyFile.SmallShiftEncoding | encrypt.c:113 | a generated shift is stored as its own value followed by a zero byte |
| KeyFile.SerializeKey | encrypt.c:107-122 | the key file has 290 bytes: the table at 0..255, the shift at 256..257, the key at 258..289 |
| KeyFile.ParseKeyFile | decrypt.c:28-53 | a key file is read exactly when its measured size is 290 bytes, and then yields a full-size table and key |
| KeyFile.ParseSerialize | decrypt.c:38-53 | reading what `write_key` wrote gives back the same table, shift and key |
| KeyFile.SerializeParse | decrypt.c:38-53 | every accepted key file is exactly what `write_key` writes for the fields read from it |
| KeyFile.ReadKey | decrypt.c:17-63 | `read_key` succeeds exactly when the file opens and its measured size is 290 bytes; it then returns the stored shift and key and the inverse of the stored table |
| KeyFile.ReadKeyStatus | decrypt.c:15 | the status is 0 or 1, and it is 0 exactly when `read_key` succeeds |
| KeyFile.ReadWrittenKey | decrypt.c:57-60 | the key file written for a permutation table is accepted, and the table read back inverts the written table in both directions |
| Cipher.ByteRoundTrip | decrypt.c:169-178 | with the counterpart key, decrypting the byte encrypted at an index gives back the byte, and encrypting the byte decrypted at an index gives back the byte |
| Cipher.CounterpartOf | decrypt.c:57-60 | the key built from the inverse table of a usable permutation key is its decrypting counterpart |
| Cipher.EncryptByteBijective | encrypt.c:231-240 | at every index, the byte encryption with a permutation table is injective and every byte has a preimage |
| Cipher.ZeroShiftSkipsRotation | encrypt.c:233-239 | with shift 0 the encrypting map is substitution then XOR, and the decrypting map is XOR then inverse substitution |
| Cipher.RotationStagesAreNative | encrypt.c:231-240 | the rotation stage of each direction is the native 8-bit rotation |
| Cipher.TransformSplits | encrypt.c:231-240 | transforming two buffers separately equals transforming their concatenation when the first has a length that is a multiple of 32 |
| Cipher.TransformRoundTrip | decrypt.c:169-178 | decrypting an encrypted buffer with the counterpart key gives the buffer back, and so does encrypting a decrypted one |
| Names.LastDot | encrypt.c:196 | `strrchr` finds the last dot: it holds a `.`, no later character is a `.`, and there is none only when the name has no `.` |
| Names.OutputNameInserts | encrypt.c:196-200 | the output name is the input name with the suffix inserted before the last dot; removing the suffix gives the input name back |
| Names.OutputNameKeepsExtension | decrypt.c:134-138 | the output name keeps the extension of the input name |
| Names.NameBuffersFit | encrypt.c:189 | each `malloc`ed name buffer holds the output name and its terminating NUL exactly, and the hard-coded offsets are the suffix lengths |
| Names.OutputNamesDistinct | encrypt.c:90-94 | the ciphertext name, the key file name and the input name are pairwise different |
| Stream.ChunkSizeBounds | encrypt.c:215 | each chunk is non-empty, fits the buffer and the remaining input, and only the last one can be shorter than the buffer |
| Stream.ChunkCountFull | encrypt.c:213-252 | `c` full buffers take `c` passes |
| Stream.ChunkCountStep | encrypt.c:213-252 | more bytes after `c` full buffers take more than `c` passes, and exactly one more when they fit in a buffer |
| Stream.TransformChunk | encrypt.c:218-240 | the in-place loop over one buffer computes the buffer transform |
| Stream.RunChunks | encrypt.c:213-252 | the chunk loop ends; it runs to completion exactly when no pass fails, and then its output is the whole-buffer transform; otherwise its output is the transform of the full chunks before the failing pass |
| Encryption.WriteKey | encrypt.c:79-126 | the key file is created exactly when its file opens, under the `_cipherkey` name, and reading it back gives the key |
| Encryption.Encrypt | encrypt.c:154-260 | an unopened or empty input stops the run before any output exists; the ciphertext is created under the `_ciphertext` name; the key file is written only after every pass succeeds, and then the ciphertext is the full transform of the input |
| Decryption.Decrypt | decrypt.c:90-195 | a rejected key stops the run before the ciphertext is opened; an unopened or empty ciphertext leaves no output; the recovered file uses the `_recovered` name; when every pass succeeds it holds the inverse transform of the ciphertext |
| Decryption.ReadKeyGivesCounterpart | decrypt.c:17-63 | `read_key` on the file `write_key` wrote returns exactly that counterpart key, whatever the inverse-table array held before |
| Decryption.DecryptsWhatEncryptWrote | decrypt.c:17-63 | the key file written for a generated key is accepted, gives the counterpart key, and decrypts the ciphertext back to the plaintext |
| Decryption.EncryptThenDecrypt | decrypt.c:90-195 | when every file operation succeeds, decrypting the two files `encrypt` wrote recovers the plaintext under the name `stem_ciphertext_recovered.ext` |

## Left out

- File I/O (`fopen`, `fseek`/`ftell`, `fread`, `fwrite`, `fclose`) is replaced by the environment values `Encryption.EncryptEnv` and `Decryption.DecryptEnv`. A failing `malloc`, `fread` or `fwrite` in a chunk pass is one "failing pass": the model keeps what the earlier passes wrote and nothing of the failing pass.
- Encryption.WriteKey: once the key file is created all three `fwrite` calls are taken to succeed; a key file cut short by a failing `fwrite` is not modelled.
- KeyFile.ReadKey: the size check compares the exact length of the file with 290. In the C, `ftell` returns a `long` that is stored in `int fileSize`; on a platform where `long` is wider than `int` that conversion is implementation-defined, and with gcc on LP64 it wraps modulo 2^32, so a file of 2^32 + 290 bytes would pass the check and have its first 290 bytes read. Key files of 4 GiB and more are outside what the model describes.
- KeyFile.ReadKey: the three `fread` calls on a file of exactly 290 bytes are taken to succeed.
- The `malloc` of an output name failing is folded into "the output file cannot be created"; the handle and memory leaks on early returns are not modelled.
- The PCG generator and its seeding from the clock and addresses are replaced by the draws they produce; nothing is claimed about randomness or uniformity.
- `main.c` (argument dispatch and usage text) and all `printf`/`fprintf` diagnostics.
- KeyFile.EncodeShort: the byte order and width of `short` are not fixed by C; the model takes a two-byte little-endian two's complement encoding.
- Names.OutputName: a name without a `.` makes `strrchr` return NULL, which the C then dereferences; a `.` in the name is a precondition wherever a name is derived.
- Table.ValidSwaps: for `1 < n < 256` a draw below 256 can index outside the array; `shuffle` is only called with `n = 256`, so such lengths are excluded.
- Decryption.Decrypt: a stored shift outside [0, 8] makes the rotation undefined in C; it is a precondition once the transform runs.
- Table.Invert: `read_key` writes into an uninitialised array, so the entries it never writes (only possible for a table that is not a permutation) keep the array's prior content, which is a parameter.
