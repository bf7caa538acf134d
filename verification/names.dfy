/**
 Output file names. `write_key`, `encrypt` and `decrypt` each split the
 input name at its last `.` (found with `strrchr`), copy the part before it,
 append a suffix, and copy the part from the `.` onwards:
 `notes.txt` becomes `notes_ciphertext.txt`.
 */
module Names {
  import opened Wrappers

  const CiphertextSuffix: string := "_ciphertext"
  const CipherkeySuffix: string := "_cipherkey"
  const RecoveredSuffix: string := "_recovered"

  /** `strrchr(name, '.')`: the index of the last dot, if any. */
  function LastDot(name: string): (r: Option<nat>)
    ensures r.None? <==> '.' !in name
    ensures r.Some? ==> r.value < |name| && name[r.value] == '.'
    ensures r.Some? ==> forall j :: r.value < j < |name| ==> name[j] != '.'
  {
    if name == [] then None
    else if name[|name| - 1] == '.' then Some(|name| - 1)
    else
      var r := LastDot(name[..|name| - 1]);
      assert '.' in name[..|name| - 1] <==> '.' in name by {
        assert name == name[..|name| - 1] + [name[|name| - 1]];
      }
      r
  }

  /** The name built by `strncpy` and the two `strcpy` calls. A name without
      a dot makes `strrchr` return NULL, which the C then dereferences; such
      names are excluded. */
  function OutputName(name: string, suffix: string): (r: string)
    requires '.' in name
  {
    var dot := LastDot(name).value;
    name[..dot] + suffix + name[dot..]
  }

  /** The output name is the input name with the suffix inserted just
      before the last dot, and nothing else changed: removing the suffix
      gives the input name back. */
  lemma OutputNameInserts(name: string, suffix: string)
    requires '.' in name
    ensures var dot := LastDot(name).value; var r := OutputName(name, suffix);
      |r| == |name| + |suffix| &&
      r[..dot] == name[..dot] &&
      r[dot..dot + |suffix|] == suffix &&
      r[dot + |suffix|..] == name[dot..] &&
      r[..dot] + r[dot + |suffix|..] == name
  {
    hide LastDot;
    var dot := LastDot(name).value;
    var r := OutputName(name, suffix);
    assert r[..dot] == name[..dot];
    assert r[dot..dot + |suffix|] == suffix;
    assert r[dot + |suffix|..] == name[dot..];
    assert name == name[..dot] + name[dot..];
  }

  /** For the three suffixes, which contain no dot, the output keeps the
      extension of the input: its last dot starts the same text. */
  lemma OutputNameKeepsExtension(name: string, suffix: string)
    requires '.' in name && '.' !in suffix
    ensures var r := OutputName(name, suffix);
      '.' in r && r[LastDot(r).value..] == name[LastDot(name).value..]
  {
    var dot := LastDot(name).value;
    var r := OutputName(name, suffix);
    OutputNameInserts(name, suffix);
    var d := dot + |suffix|;
    assert r[d] == '.';
    forall j | d < j < |r|
      ensures r[j] != '.'
    {
      assert r[j] == name[j - |suffix|];
    }
    var d' := LastDot(r).value;
    if d' < d {
      assert false;
    } else if d' > d {
      assert false;
    }
  }

  /** The suffix lengths are the offsets the C hard-codes in its second
      `strcpy`, and each buffer is `malloc`ed exactly large enough for the
      name and its terminating NUL: `strlen + 12` for the ciphertext name,
      `strlen + 11` for the other two. */
  lemma NameBuffersFit(name: string)
    requires '.' in name
    ensures |CiphertextSuffix| == 11 && |CipherkeySuffix| == 10 && |RecoveredSuffix| == 10
    ensures |OutputName(name, CiphertextSuffix)| + 1 == |name| + 12
    ensures |OutputName(name, CipherkeySuffix)| + 1 == |name| + 11
    ensures |OutputName(name, RecoveredSuffix)| + 1 == |name| + 11
  {
    OutputNameInserts(name, CiphertextSuffix);
    OutputNameInserts(name, CipherkeySuffix);
    OutputNameInserts(name, RecoveredSuffix);
  }

  /** The three output names of one input are pairwise different, so
      neither output overwrites the other or the input. */
  lemma OutputNamesDistinct(name: string)
    requires '.' in name
    ensures OutputName(name, CiphertextSuffix) != OutputName(name, CipherkeySuffix)
    ensures OutputName(name, CiphertextSuffix) != name
    ensures OutputName(name, CipherkeySuffix) != name
  {
    OutputNameInserts(name, CiphertextSuffix);
    OutputNameInserts(name, CipherkeySuffix);
  }
}
