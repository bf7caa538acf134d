/**
 The chunk loop shared by `encrypt` and `decrypt`: while bytes remain, take
 `allocSize = min(remaining, MAX_BUF_SIZE)` of them into a fresh buffer,
 transform the buffer in place with the in-buffer index `i` choosing key
 byte `i % 32`, write it out, and subtract `allocSize`. The buffer size is a
 parameter here; the C passes `MAX_BUF_SIZE`.
 */
module Stream {
  import opened Bits
  import opened Wrappers
  import Arith
  import EncryptH
  import opened Keys
  import opened Cipher

  /** An output file the program creates, with everything written to it. */
  datatype NamedFile = NamedFile(name: string, contents: seq<byte>)

  /** `allocSize`: a full buffer while more than that remains, otherwise the
      rest. */
  function ChunkSize(remaining: nat, bufSize: nat): nat
  {
    if remaining > bufSize then bufSize else remaining
  }

  /** Every chunk is non-empty, fits the buffer and the remaining input, and
      only the last one can be short. */
  lemma ChunkSizeBounds(remaining: nat, bufSize: nat)
    requires remaining > 0 && bufSize > 0
    ensures 0 < ChunkSize(remaining, bufSize) <= bufSize
    ensures ChunkSize(remaining, bufSize) <= remaining
    ensures ChunkSize(remaining, bufSize) < bufSize ==> ChunkSize(remaining, bufSize) == remaining
  {
  }

  /** How many passes the loop makes over `len` bytes: the number of
      buffers needed to hold them. */
  function ChunkCount(len: nat, bufSize: nat): (n: nat)
    requires bufSize > 0
  {
    if len == 0 then 0 else (len - 1) / bufSize + 1
  }

  lemma ChunkCountFull(c: nat, bufSize: nat)
    requires bufSize > 0
    ensures ChunkCount(bufSize * c, bufSize) == c
  {
    if c > 0 {
      Arith.DivUnique(bufSize * c - 1, bufSize, c - 1, bufSize - 1);
    }
  }

  /** `n` more bytes after `c` full buffers take one more pass when they fit
      in a buffer, and at least one more otherwise. */
  lemma ChunkCountStep(c: nat, bufSize: nat, n: nat)
    requires bufSize > 0 && n > 0
    ensures ChunkCount(bufSize * c + n, bufSize) > c
    ensures n <= bufSize ==> ChunkCount(bufSize * c + n, bufSize) == c + 1
  {
    var x := bufSize * c + n - 1;
    if n <= bufSize {
      Arith.DivUnique(x, bufSize, c, n - 1);
    } else {
      Arith.DivUnique(x, bufSize, x / bufSize, x % bufSize);
      if x / bufSize < c {
        Arith.MulMonotone(x / bufSize + 1, c, bufSize);
      }
    }
  }

  /** One pass of the inner loop: the buffer is filled from `chunk` and
      transformed in place, byte `i` with key byte `i % 32`. */
  method TransformChunk(d: Direction, k: KeyParts, chunk: seq<byte>) returns (out: seq<byte>)
    requires Usable(k)
    ensures out == Transform(d, k, chunk)
  {
    var allocSize := |chunk|;
    var textArray := new byte[allocSize](j requires 0 <= j < allocSize => chunk[j]);
    var i := 0;
    while i < allocSize
      invariant 0 <= i <= allocSize
      invariant forall j :: 0 <= j < i ==> textArray[j] == ApplyByte(d, k, j, chunk[j])
      invariant forall j :: i <= j < allocSize ==> textArray[j] == chunk[j]
      decreases allocSize - i
    {
      textArray[i] := ApplyByte(d, k, i, textArray[i]);
      i := i + 1;
    }
    out := textArray[..];
  }

  /** The loop of `encrypt` (direction `Forward`) or `decrypt` (`Backward`)
      over an input of `|input|` bytes. `failing` names the pass, if any,
      whose allocation, read or write fails; the C returns there, after the
      earlier passes have been written. Returns the bytes written, the
      number of completed passes, and whether the loop ran to its end. */
  method RunChunks(d: Direction, k: KeyParts, input: seq<byte>, bufSize: nat, failing: Option<nat>)
    returns (written: seq<byte>, passes: nat, completed: bool)
    requires Usable(k) && bufSize > 0 && bufSize % EncryptH.KeySize == 0
    ensures completed <==> failing.None? || failing.value >= ChunkCount(|input|, bufSize)
    ensures completed ==> written == Transform(d, k, input) && passes == ChunkCount(|input|, bufSize)
    ensures !completed ==>
      passes == failing.value && bufSize * passes < |input| &&
      written == Transform(d, k, input[..bufSize * passes])
  {
    hide Transform, ApplyByte;
    var fileSize: nat, offset: nat := |input|, 0;
    written, passes := [], 0;
    ChunkCountFull(0, bufSize);
    while fileSize > 0
      invariant offset + fileSize == |input|
      invariant passes == ChunkCount(offset, bufSize)
      invariant fileSize > 0 ==> offset == bufSize * passes
      invariant written == Transform(d, k, input[..offset])
      invariant failing.Some? ==> passes <= failing.value
      decreases fileSize
    {
      ChunkCountStep(passes, bufSize, fileSize);
      if failing == Some(passes) {
        return written, passes, false;
      }
      var allocSize := ChunkSize(fileSize, bufSize);
      ChunkSizeBounds(fileSize, bufSize);
      ChunkCountStep(passes, bufSize, allocSize);
      var chunk := input[offset..offset + allocSize];
      var out := TransformChunk(d, k, chunk);
      Arith.MultipleMod(bufSize, passes, EncryptH.KeySize);
      TransformSplits(d, k, input[..offset], chunk);
      assert input[..offset] + chunk == input[..offset + allocSize];
      written := written + out;
      fileSize, offset := fileSize - allocSize, offset + allocSize;
      passes := passes + 1;
    }
    assert input[..offset] == input;
    completed := true;
  }
}
