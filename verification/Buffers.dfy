/** Writing a run of elements into an array, as memcpy and read do, and the pieces of a
    sequence. */
module Buffers {

  method Put<T>(dst: array<T>, off: nat, s: seq<T>)
    requires off + |s| <= dst.Length
    modifies dst
    ensures dst[off..off + |s|] == s
    ensures dst[..off] == old(dst[..off]) && dst[off + |s|..] == old(dst[off + |s|..])
    ensures forall k :: 0 <= k < dst.Length && (k < off || off + |s| <= k) ==> dst[k] == old(dst[k])
  {
    for i := 0 to |s|
      invariant forall k :: 0 <= k < i ==> dst[off + k] == s[k]
      invariant forall k :: 0 <= k < dst.Length && (k < off || off + i <= k) ==> dst[k] == old(dst[k])
    {
      dst[off + i] := s[i];
    }
  }

  lemma TakeMore<T>(s: seq<T>, c: nat, m: nat)
    requires c + m <= |s|
    ensures s[..c + m] == s[..c] + s[c..][..m]
    ensures s[c..][m..] == s[c + m..]
  {
    assert s[c..][..m] == s[c..c + m];
  }

  lemma TakeAll<T>(s: seq<T>, c: nat)
    requires c <= |s|
    ensures s[..c] + s[c..] == s
    ensures c == |s| || s[c..] == [] ==> s[..c] == s
  {
  }

  // ------------------------------------------------------------------ pieces of a concatenation

  lemma Parts<T>(a: seq<T>, b: seq<T>)
    ensures (a + b)[..|a|] == a && (a + b)[|a|..] == b
  {
  }

  lemma InFront<T>(a: seq<T>, b: seq<T>, i: nat, j: nat)
    requires i <= j <= |a|
    ensures (a + b)[i..j] == a[i..j]
  {
  }

  lemma Behind<T>(a: seq<T>, b: seq<T>, i: nat, j: nat)
    requires i <= j <= |b|
    ensures (a + b)[|a| + i..|a| + j] == b[i..j]
  {
  }

  lemma Middle<T>(a: seq<T>, b: seq<T>, c: seq<T>)
    ensures (a + b + c)[|a|..|a| + |b|] == b
  {
  }

  lemma Within<T>(a: seq<T>, b: seq<T>, c: seq<T>, i: nat, j: nat)
    requires i <= j <= |b|
    ensures (a + b + c)[|a| + i..|a| + j] == b[i..j]
  {
  }

  lemma SliceOfSlice<T>(s: seq<T>, a: nat, b: nat, i: nat, j: nat)
    requires a <= b <= |s| && i <= j <= b - a
    ensures s[a..b][i..j] == s[a + i..a + j]
  {
    var t, u := s[a..b][i..j], s[a + i..a + j];
    forall k | 0 <= k < |t|
      ensures t[k] == u[k]
    {
    }
  }
}
