/**
 `decrypt`: read the key file (rejecting it unless it has exactly
 `KEY_FILE_SIZE` bytes), reject an unreadable or empty ciphertext, derive the
 recovered name, and run the chunk loop backward. As for `encrypt`, the file
 system's answers are a `DecryptEnv` given as input.
 */
module Decryption {
  import opened Bits
  import opened Wrappers
  import EncryptH
  import DecryptH
  import Table
  import opened Keys
  import opened Cipher
  import opened KeyFile
  import opened Names
  import opened Stream
  import Encryption

  /** What the environment answers when `decrypt` uses it. `keyFile` and
      `ciphertext` are the contents of the two input files, `None` when
      `fopen` fails; `invArray` is what the caller's inverse-table array held
      before `read_key` wrote into it; `recoveredOpens` says whether the
      recovered name is allocated and its file created; `failingPass` names
      the pass of the chunk loop, if any, whose `malloc`, `fread` or `fwrite`
      fails. */
  datatype DecryptEnv = DecryptEnv(
    keyFile: Option<seq<byte>>,
    invArray: seq<byte>,
    ciphertext: Option<seq<byte>>,
    recoveredOpens: bool,
    failingPass: Option<nat>)

  /** Where a run of `decrypt` ends. */
  datatype DecryptOutcome =
    | KeyRejected
    | CiphertextUnopened
    | EmptyCiphertext
    | RecoveredUnopened
    | PassFailed(pass: nat)
    | Decrypted

  /** The key read, whether the ciphertext was opened, and the recovered file
      left behind. */
  datatype DecryptRun = DecryptRun(
    outcome: DecryptOutcome,
    key: Option<KeyParts>,
    ciphertextOpened: bool,
    recovered: Option<NamedFile>)

  /** `read_key` accepts the key file and the ciphertext holds at least one
      byte: the run goes on to name its output. */
  predicate HasCiphertext(env: DecryptEnv)
    requires |env.invArray| == EncryptH.CharMax
  {
    ReadKey(env.keyFile, env.invArray).Some? &&
    env.ciphertext.Some? && |env.ciphertext.value| > 0
  }

  /** The run reaches the byte transform: the output opens and the first
      pass does not fail before transforming. */
  predicate TransformsBytes(env: DecryptEnv)
    requires |env.invArray| == EncryptH.CharMax
  {
    HasCiphertext(env) && env.recoveredOpens && env.failingPass != Some(0)
  }

  /** `decrypt(cipherName, keyName)`. A stored shift outside [0, 8] makes the
      rotation undefined in C, so it is excluded where the rotation runs. */
  method Decrypt(cipherName: string, env: DecryptEnv) returns (run: DecryptRun)
    requires |env.invArray| == EncryptH.CharMax
    requires HasCiphertext(env) ==> '.' in cipherName
    requires TransformsBytes(env) ==> ShiftDefined(ReadKey(env.keyFile, env.invArray).value.shift)
    ensures run.key == ReadKey(env.keyFile, env.invArray)
    ensures run.outcome == KeyRejected <==> run.key.None?
    ensures run.ciphertextOpened <==> run.key.Some? && env.ciphertext.Some?
    ensures run.outcome == CiphertextUnopened <==> run.key.Some? && env.ciphertext.None?
    ensures run.outcome == EmptyCiphertext <==> run.key.Some? && env.ciphertext == Some([])
    ensures run.outcome == RecoveredUnopened <==> HasCiphertext(env) && !env.recoveredOpens
    ensures run.recovered.Some? <==> HasCiphertext(env) && env.recoveredOpens
    ensures run.recovered.Some? ==>
      run.recovered.value.name == OutputName(cipherName, RecoveredSuffix)
    ensures run.outcome.PassFailed? ==>
      HasCiphertext(env) && env.failingPass == Some(run.outcome.pass) &&
      DecryptH.MaxBufSize * run.outcome.pass < |env.ciphertext.value| &&
      run.recovered.Some? &&
      (run.outcome.pass == 0 ==> run.recovered.value.contents == []) &&
      (run.outcome.pass > 0 ==>
         Usable(run.key.value) &&
         run.recovered.value.contents ==
           Transform(Backward, run.key.value, env.ciphertext.value[..DecryptH.MaxBufSize * run.outcome.pass]))
    ensures run.outcome == Decrypted <==>
      HasCiphertext(env) && env.recoveredOpens &&
      (env.failingPass.None? ||
       env.failingPass.value >= ChunkCount(|env.ciphertext.value|, DecryptH.MaxBufSize))
    ensures run.outcome == Decrypted ==>
      Usable(run.key.value) &&
      run.recovered.value.contents == Transform(Backward, run.key.value, env.ciphertext.value)
  {
    var key := ReadKey(env.keyFile, env.invArray);
    if key.None? {
      return DecryptRun(KeyRejected, key, false, None);
    }
    if env.ciphertext.None? {
      return DecryptRun(CiphertextUnopened, key, false, None);
    }
    var ciphertext := env.ciphertext.value;
    if |ciphertext| == 0 {
      return DecryptRun(EmptyCiphertext, key, true, None);
    }
    if !env.recoveredOpens {
      return DecryptRun(RecoveredUnopened, key, true, None);
    }
    var name := OutputName(cipherName, RecoveredSuffix);
    ChunkCountStep(0, DecryptH.MaxBufSize, |ciphertext|);
    if env.failingPass == Some(0) {
      return DecryptRun(PassFailed(0), key, true, Some(NamedFile(name, [])));
    }
    DecryptH.MaxBufAligned();
    DecryptH.AgreesWithEncryptH();
    var written, passes, completed :=
      RunChunks(Backward, key.value, ciphertext, DecryptH.MaxBufSize, env.failingPass);
    var outcome := if completed then Decrypted else PassFailed(passes);
    run := DecryptRun(outcome, key, true, Some(NamedFile(name, written)));
  }

  /** What `read_key` returns for the key file `write_key` wrote is exactly
      the counterpart key built from the inverse table, whatever the
      inverse-table array held before. */
  lemma ReadKeyGivesCounterpart(enc: KeyParts, invArray: seq<byte>)
    requires Usable(enc) && Table.IsPermutation(enc.table) && |invArray| == EncryptH.CharMax
    ensures ReadKey(Some(SerializeKey(enc)), invArray) == Some(CounterpartOf(enc))
  {
    ParseSerialize(enc);
    Table.InvertPermutation(enc.table, invArray, enc.table);
  }

  /** The key file `encrypt` writes, read back by `read_key` whatever its
      inverse-table array held, gives the decrypting counterpart of the
      generated key; decrypting the ciphertext with it gives the plaintext
      back. */
  lemma DecryptsWhatEncryptWrote(draws: KeyDraws, invArray: seq<byte>, plaintext: seq<byte>)
    requires ValidDraws(draws) && |invArray| == EncryptH.CharMax
    ensures var enc := GenerateKey(draws);
      var dec := ReadKey(Some(SerializeKey(enc)), invArray);
      dec.Some? && Counterparts(enc, dec.value) &&
      Transform(Backward, dec.value, Transform(Forward, enc, plaintext)) == plaintext
  {
    var enc := GenerateKey(draws);
    ReadWrittenKey(enc, invArray);
    var dec := ReadKey(Some(SerializeKey(enc)), invArray).value;
    TransformRoundTrip(enc, dec, plaintext);
  }

  /** `encrypt` followed by `decrypt` on the two files it wrote: when every
      file operation succeeds, the recovered file holds the plaintext, under
      the input name with `_ciphertext_recovered` before its extension. */
  method EncryptThenDecrypt(inputName: string, plaintext: seq<byte>, draws: KeyDraws, invArray: seq<byte>)
    returns (encrypted: Encryption.EncryptRun, decrypted: DecryptRun)
    requires ValidDraws(draws) && |invArray| == EncryptH.CharMax
    requires '.' in inputName && |plaintext| > 0
    ensures encrypted.outcome == Encryption.Encrypted
    ensures decrypted.outcome == Decrypted
    ensures decrypted.recovered.Some? && decrypted.recovered.value.contents == plaintext
    ensures decrypted.recovered.value.name ==
      OutputName(OutputName(inputName, CiphertextSuffix), RecoveredSuffix)
  {
    hide Transform, GenerateKey, ReadKey, SerializeKey, OutputName;
    encrypted := Encryption.Encrypt(inputName, Encryption.EncryptEnv(Some(plaintext), true, None, true), draws);
    var cipherName := encrypted.ciphertext.value.name;
    OutputNameKeepsExtension(inputName, CiphertextSuffix);
    DecryptsWhatEncryptWrote(draws, invArray, plaintext);
    var env := DecryptEnv(Some(encrypted.keyFile.value.contents), invArray,
                          Some(encrypted.ciphertext.value.contents), true, None);
    decrypted := Decrypt(cipherName, env);
  }
}
