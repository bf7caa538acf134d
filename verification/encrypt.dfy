/**
 `encrypt` and its helper `write_key`: generate the key, reject an unreadable
 or empty input, derive the ciphertext name, run the chunk loop forward, and
 on success store the key next to the input. The file system is not
 modelled; its answers are an `EncryptEnv` given as input, and the files the
 run leaves behind are the result.
 */
module Encryption {
  import opened Bits
  import opened Wrappers
  import EncryptH
  import opened Keys
  import opened Cipher
  import opened KeyFile
  import opened Names
  import opened Stream

  /** What the environment answers when `encrypt` uses it. `input` is the
      content of the input file, `None` when `fopen` fails. `ciphertextOpens`
      says whether the ciphertext name is allocated and its file created;
      `failingPass` names the pass of the chunk loop, if any, whose `malloc`,
      `fread` or `fwrite` fails; `keyFileOpens` says whether `write_key`
      allocates its name and creates the key file. */
  datatype EncryptEnv = EncryptEnv(
    input: Option<seq<byte>>,
    ciphertextOpens: bool,
    failingPass: Option<nat>,
    keyFileOpens: bool)

  /** Where a run of `encrypt` ends. */
  datatype EncryptOutcome =
    | InputUnopened
    | EmptyInput
    | CiphertextUnopened
    | PassFailed(pass: nat)
    | KeyFileUnopened
    | Encrypted

  /** The key generated, and the ciphertext and key files left behind. */
  datatype EncryptRun = EncryptRun(
    outcome: EncryptOutcome,
    key: KeyParts,
    ciphertext: Option<NamedFile>,
    keyFile: Option<NamedFile>)

  /** The input opens and holds at least one byte. */
  predicate HasPlaintext(env: EncryptEnv)
  {
    env.input.Some? && |env.input.value| > 0
  }

  /** No pass of the chunk loop over `len` bytes fails. */
  predicate PassesSucceed(failingPass: Option<nat>, len: nat)
  {
    failingPass.None? || failingPass.value >= ChunkCount(len, EncryptH.MaxBufSize)
  }

  /** `write_key`: create the `_cipherkey` file next to the input and fill it
      with the table, the shift and the key. */
  function WriteKey(inputName: string, k: KeyParts, opens: bool): (r: Option<NamedFile>)
    requires '.' in inputName && WellSized(k)
    ensures r.Some? <==> opens
    ensures r.Some? ==> r.value.name == OutputName(inputName, CipherkeySuffix)
    ensures r.Some? ==> ParseKeyFile(r.value.contents) == Some(k)
  {
    ParseSerialize(k);
    if opens then Some(NamedFile(OutputName(inputName, CipherkeySuffix), SerializeKey(k)))
    else None
  }

  /** `encrypt(inputName)`. */
  method Encrypt(inputName: string, env: EncryptEnv, draws: KeyDraws) returns (run: EncryptRun)
    requires ValidDraws(draws)
    requires HasPlaintext(env) ==> '.' in inputName
    ensures run.key == GenerateKey(draws)
    ensures run.outcome == InputUnopened <==> env.input.None?
    ensures run.outcome == EmptyInput <==> env.input == Some([])
    ensures run.outcome == CiphertextUnopened <==> HasPlaintext(env) && !env.ciphertextOpens
    ensures run.ciphertext.Some? <==> HasPlaintext(env) && env.ciphertextOpens
    ensures run.ciphertext.Some? ==>
      run.ciphertext.value.name == OutputName(inputName, CiphertextSuffix)
    ensures run.outcome.PassFailed? ==>
      HasPlaintext(env) && env.failingPass == Some(run.outcome.pass) &&
      EncryptH.MaxBufSize * run.outcome.pass < |env.input.value| &&
      run.ciphertext.Some? &&
      run.ciphertext.value.contents ==
        Transform(Forward, run.key, env.input.value[..EncryptH.MaxBufSize * run.outcome.pass])
    ensures run.outcome.PassFailed? <==>
      HasPlaintext(env) && env.ciphertextOpens && !PassesSucceed(env.failingPass, |env.input.value|)
    ensures run.ciphertext.Some? && !run.outcome.PassFailed? ==>
      run.ciphertext.value.contents == Transform(Forward, run.key, env.input.value)
    ensures run.outcome == Encrypted <==>
      HasPlaintext(env) && env.ciphertextOpens &&
      PassesSucceed(env.failingPass, |env.input.value|) && env.keyFileOpens
    ensures run.keyFile.Some? <==> run.outcome == Encrypted
    ensures run.keyFile.Some? ==>
      run.keyFile.value == NamedFile(OutputName(inputName, CipherkeySuffix), SerializeKey(run.key))
  {
    var key := GenerateKey(draws);
    if env.input.None? {
      return EncryptRun(InputUnopened, key, None, None);
    }
    var plaintext := env.input.value;
    if |plaintext| == 0 {
      return EncryptRun(EmptyInput, key, None, None);
    }
    if !env.ciphertextOpens {
      return EncryptRun(CiphertextUnopened, key, None, None);
    }
    var name := OutputName(inputName, CiphertextSuffix);
    EncryptH.MaxBufAligned();
    var written, passes, completed := RunChunks(Forward, key, plaintext, EncryptH.MaxBufSize, env.failingPass);
    var ciphertext := Some(NamedFile(name, written));
    if !completed {
      return EncryptRun(PassFailed(passes), key, ciphertext, None);
    }
    var keyFile := WriteKey(inputName, key, env.keyFileOpens);
    var outcome := if keyFile.Some? then Encrypted else KeyFileUnopened;
    run := EncryptRun(outcome, key, ciphertext, keyFile);
  }
}
