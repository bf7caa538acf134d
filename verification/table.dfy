/**
 The 256-entry substitution table: how `generate_key` builds it (identity,
 then `shuffle`), what makes it usable (it is a permutation of the byte
 values), and how `read_key` inverts it.
 */
module Table {
  import opened Bits
  import EncryptH

  /** The identity table `randomSub[i] = i` filled in before shuffling. */
  function Identity(): (t: seq<byte>)
    ensures |t| == EncryptH.CharMax
    ensures forall i :: 0 <= i < |t| ==> t[i] == i
  {
    seq(EncryptH.CharMax, i requires 0 <= i < EncryptH.CharMax => i)
  }

  /** Every byte value occurs exactly once, as in the identity table. */
  predicate IsPermutation(t: seq<byte>)
  {
    multiset(t) == multiset(Identity())
  }

  // ---------------------------------------------------------------------------
  // Shuffling

  /** The three assignments `temp = a[j]; a[j] = a[i]; a[i] = temp`. */
  function Swap(a: seq<byte>, i: nat, j: nat): (r: seq<byte>)
    requires i < |a| && j < |a|
    ensures |r| == |a|
    ensures r[i] == a[j] && r[j] == a[i]
    ensures forall k :: 0 <= k < |a| && k != i && k != j ==> r[k] == a[k]
    ensures multiset(r) == multiset(a)
  {
    a[j := a[i]][i := a[j]]
  }

  /** The random indices `shuffle` may receive: each below `CHAR_MAX`, and
      all of them inside the array when the loop runs at all. */
  predicate ValidSwaps(a: seq<byte>, swaps: seq<nat>)
  {
    |swaps| == |a| &&
    (forall k :: 0 <= k < |swaps| ==> swaps[k] < EncryptH.CharMax) &&
    (|a| <= 1 || |a| >= EncryptH.CharMax)
  }

  /** The loop of `shuffle` from iteration `i` on: iteration `i` swaps
      position `i` with the drawn position `swaps[i]`. */
  function ShuffleFrom(a: seq<byte>, swaps: seq<nat>, i: nat): (r: seq<byte>)
    requires ValidSwaps(a, swaps) && |a| > 1 && i <= |a|
    ensures |r| == |a|
    ensures multiset(r) == multiset(a)
    decreases |a| - i
  {
    if i == |a| then a
    else
      var b := Swap(a, i, swaps[i]);
      ShuffleFrom(b, swaps, i + 1)
  }

  /** `shuffle(array, n)`: nothing happens unless `n > 1`. */
  function Shuffle(a: seq<byte>, swaps: seq<nat>): (r: seq<byte>)
    requires ValidSwaps(a, swaps)
    ensures |r| == |a|
    ensures multiset(r) == multiset(a)
    ensures |a| <= 1 ==> r == a
  {
    if |a| > 1 then ShuffleFrom(a, swaps, 0) else a
  }

  // ---------------------------------------------------------------------------
  // What a permutation is

  lemma {:induction false} CountInRange(n: nat, x: int)
    requires n <= EncryptH.CharMax
    ensures multiset(Identity()[..n])[x] == if 0 <= x < n then 1 else 0
  {
    if n > 0 {
      var t := Identity();
      assert t[..n] == t[..n - 1] + [t[n - 1]];
      CountInRange(n - 1, x);
    }
  }

  /** Each byte value occurs exactly once in the identity table. */
  lemma IdentityCounts(x: int)
    ensures multiset(Identity())[x] == if 0 <= x < EncryptH.CharMax then 1 else 0
  {
    var t := Identity();
    assert t[..|t|] == t;
    CountInRange(|t|, x);
  }

  /** Two positions holding the same value count twice in the multiset. */
  lemma TwiceCounted(s: seq<byte>, i: nat, j: nat)
    requires i < j < |s| && s[i] == s[j]
    ensures multiset(s)[s[i]] >= 2
  {
    assert s == s[..i] + [s[i]] + s[i + 1..j] + [s[j]] + s[j + 1..];
  }

  /** A permutation has 256 entries, no value twice, and every byte value
      somewhere; so substituting through it is a bijection on bytes. */
  lemma PermutationIsBijection(t: seq<byte>)
    requires IsPermutation(t)
    ensures |t| == EncryptH.CharMax
    ensures forall i, j :: 0 <= i < j < |t| ==> t[i] != t[j]
    ensures forall b :: 0 <= b < EncryptH.CharMax ==> b in t
  {
    assert |t| == |multiset(t)| == |multiset(Identity())| == EncryptH.CharMax;
    forall i, j | 0 <= i < j < |t|
      ensures t[i] != t[j]
    {
      if t[i] == t[j] {
        TwiceCounted(t, i, j);
        IdentityCounts(t[i]);
      }
    }
    forall b | 0 <= b < EncryptH.CharMax
      ensures b in t
    {
      IdentityCounts(b);
      assert b in multiset(t);
    }
  }

  lemma {:induction false} DistinctCountsOnce(s: seq<byte>, x: int)
    requires forall i, j :: 0 <= i < j < |s| ==> s[i] != s[j]
    ensures multiset(s)[x] <= 1
  {
    if s != [] {
      var p := s[..|s| - 1];
      assert s == p + [s[|s| - 1]];
      DistinctCountsOnce(p, x);
      if x == s[|s| - 1] {
        assert x !in p;
      }
    }
  }

  /** Conversely, 256 entries that are pairwise distinct and cover every byte
      value form a permutation. */
  lemma BijectionIsPermutation(t: seq<byte>)
    requires |t| == EncryptH.CharMax
    requires forall i, j :: 0 <= i < j < |t| ==> t[i] != t[j]
    requires forall b :: 0 <= b < EncryptH.CharMax ==> b in t
    ensures IsPermutation(t)
  {
    forall x
      ensures multiset(t)[x] == multiset(Identity())[x]
    {
      IdentityCounts(x);
      DistinctCountsOnce(t, x);
      if 0 <= x < EncryptH.CharMax {
        assert x in t;
        assert x in multiset(t);
      } else {
        assert x !in t;
      }
    }
    assert multiset(t) == multiset(Identity());
  }

  // ---------------------------------------------------------------------------
  // Inversion

  /** The loop of `read_key` that builds the inverse table, after its first
      `n` iterations `inv[t[i]] = i`. It writes over `prior`, whatever the
      array held before: in `decrypt` it is an uninitialised local. Each value
      met so far maps to the last position holding it; the rest keep their
      prior contents. */
  function InvertUpTo(t: seq<byte>, prior: seq<byte>, n: nat): (inv: seq<byte>)
    requires |t| == EncryptH.CharMax && |prior| == EncryptH.CharMax && n <= |t|
    ensures |inv| == EncryptH.CharMax
    ensures forall i :: 0 <= i < n ==> i <= inv[t[i]] < n && t[inv[t[i]]] == t[i]
    ensures forall b :: 0 <= b < EncryptH.CharMax && b !in t[..n] ==> inv[b] == prior[b]
  {
    if n == 0 then prior
    else
      assert t[..n] == t[..n - 1] + [t[n - 1]];
      InvertUpTo(t, prior, n - 1)[t[n - 1] := n - 1]
  }

  /** The complete inverse table built by `read_key`. */
  function Invert(t: seq<byte>, prior: seq<byte>): (inv: seq<byte>)
    requires |t| == EncryptH.CharMax && |prior| == EncryptH.CharMax
    ensures |inv| == EncryptH.CharMax
  {
    InvertUpTo(t, prior, |t|)
  }

  /** For a permutation the inverse table undoes the substitution in both
      directions. */
  lemma InvertUndoes(t: seq<byte>, prior: seq<byte>)
    requires IsPermutation(t) && |prior| == EncryptH.CharMax
    ensures |t| == EncryptH.CharMax
    ensures var inv := Invert(t, prior);
      (forall i :: 0 <= i < |t| ==> inv[t[i]] == i) &&
      (forall b :: 0 <= b < EncryptH.CharMax ==> t[inv[b]] == b)
  {
    PermutationIsBijection(t);
    var inv := Invert(t, prior);
    assert t[..|t|] == t;
    forall b | 0 <= b < EncryptH.CharMax
      ensures t[inv[b]] == b
    {
      assert b in t;
      var i :| 0 <= i < |t| && t[i] == b;
    }
  }

  /** The inverse of a permutation is itself a permutation, and does not
      depend on what the array held before. */
  lemma InvertPermutation(t: seq<byte>, prior: seq<byte>, other: seq<byte>)
    requires IsPermutation(t) && |prior| == EncryptH.CharMax && |other| == EncryptH.CharMax
    ensures |t| == EncryptH.CharMax
    ensures var inv := Invert(t, prior);
      (forall i :: 0 <= i < |t| ==> inv[t[i]] == i) &&
      (forall b :: 0 <= b < EncryptH.CharMax ==> t[inv[b]] == b)
    ensures IsPermutation(Invert(t, prior))
    ensures Invert(t, prior) == Invert(t, other)
  {
    InvertUndoes(t, prior);
    InvertUndoes(t, other);
    hide Invert, InvertUpTo;
    var inv, inv' := Invert(t, prior), Invert(t, other);
    forall b | 0 <= b < EncryptH.CharMax
      ensures inv[b] == inv'[b]
    {
      assert inv[t[inv[b]]] == inv[b] && inv'[t[inv[b]]] == inv[b];
    }
    forall i, j | 0 <= i < j < |inv|
      ensures inv[i] != inv[j]
    {
      assert t[inv[i]] == i && t[inv[j]] == j;
    }
    forall i | 0 <= i < EncryptH.CharMax
      ensures i in inv
    {
      assert inv[t[i]] == i;
    }
    BijectionIsPermutation(inv);
  }
}
