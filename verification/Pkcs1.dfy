/** The block formats of signimage/source/common/pk1/src/pk1.c (section 8.1 of RFC 2313). */
module Pkcs1 {
  import opened Buffers
  import opened Bytes

  const PaddingSize := 11

  function Fill(b: Byte, n: nat): (f: seq<Byte>)
    ensures |f| == n
  {
    seq(n, i => b)
  }

  // ------------------------------------------------------------------ the formats

  /** A block of type 1: 00 01, at least eight FF, 00, and the data. */
  function Type1(len: nat, data: seq<Byte>): (b: seq<Byte>)
    requires |data| + PaddingSize <= len
    ensures |b| == len
  {
    [0, 1] + Fill(0xFF, len - 3 - |data|) + [0] + data
  }

  /** A block of type 2: 00 02, at least eight bytes that are not zero, 00, and the data. */
  ghost predicate IsType2(block: seq<Byte>, data: seq<Byte>) {
    var n := |block| - 3 - |data|;
    && n >= 8 && block[..2] == [0, 2]
    && (forall i :: 2 <= i < 2 + n ==> block[i] != 0)
    && block[2 + n] == 0 && block[3 + n..] == data
  }

  /** What AddType2 makes. */
  function Type2(len: nat, data: seq<Byte>): (b: seq<Byte>)
    requires |data| + PaddingSize <= len
    ensures |b| == len
    ensures IsType2(b, data)
  {
    [0, 2] + Fill(0xAA, len - 3 - |data|) + [0] + data
  }

  ghost predicate IsType1(block: seq<Byte>, data: seq<Byte>) {
    |data| + PaddingSize <= |block| && block == Type1(|block|, data)
  }

  /** A block has its data in one way only. */
  lemma DataIsUnique(block: seq<Byte>, data: seq<Byte>, data': seq<Byte>)
    requires (IsType1(block, data) && IsType1(block, data')) || (IsType2(block, data) && IsType2(block, data'))
    ensures data == data'
  {
    if IsType1(block, data) {
      Type1Bytes(|block|, data);
      Type1Bytes(|block|, data');
    }
  }

  lemma Type1Bytes(len: nat, data: seq<Byte>)
    requires |data| + PaddingSize <= len
    ensures var b, n := Type1(len, data), len - 3 - |data|;
            && b[..2] == [0, 1] && (forall i :: 2 <= i < 2 + n ==> b[i] == 0xFF) && b[2 + n] == 0 && b[3 + n..] == data
  {
  }

  /** The bytes that make a block of type 1. */
  lemma Type1From(block: seq<Byte>, n: nat, data: seq<Byte>)
    requires n >= 8 && |block| == 3 + n + |data| && block[..2] == [0, 1]
    requires (forall i :: 2 <= i < 2 + n ==> block[i] == 0xFF) && block[2 + n] == 0 && block[3 + n..] == data
    ensures IsType1(block, data)
  {
    var b := Type1(|block|, data);
    forall i | 0 <= i < |block|
      ensures block[i] == b[i]
    {
      if i >= 3 + n {
        assert block[i] == block[3 + n..][i - 3 - n];
      }
    }
  }

  /** A block of either type, byte by byte. */
  lemma SampleBlocks()
    ensures Type1(14, [7, 8, 9]) == [0, 1, 0xFF, 0xFF, 0xFF, 0xFF, 0xFF, 0xFF, 0xFF, 0xFF, 0, 7, 8, 9]
    ensures Type2(14, [7, 8, 9]) == [0, 2, 0xAA, 0xAA, 0xAA, 0xAA, 0xAA, 0xAA, 0xAA, 0xAA, 0, 7, 8, 9]
    ensures IsType2([0, 2, 1, 2, 3, 4, 5, 6, 7, 8, 0, 0, 9], [0, 9])
  {
    assert Fill(0xFF, 8) == [0xFF, 0xFF, 0xFF, 0xFF, 0xFF, 0xFF, 0xFF, 0xFF];
    assert Fill(0xAA, 8) == [0xAA, 0xAA, 0xAA, 0xAA, 0xAA, 0xAA, 0xAA, 0xAA];
  }

  // ------------------------------------------------------------------ putting data into a block

  /** get_rand_bytes: there is nothing random about them. */
  method GetRandBytes(buf: array<Byte>, at: nat, num: nat) returns (ok: bool)
    requires at + num <= buf.Length
    modifies buf
    ensures ok && buf[at..at + num] == Fill(0xAA, num)
    ensures buf[..at] == old(buf[..at]) && buf[at + num..] == old(buf[at + num..])
  {
    var i := 0;
    while i < num
      invariant i <= num
      invariant forall k :: 0 <= k < buf.Length ==> buf[k] == if at <= k < at + i then 0xAA else old(buf[k])
    {
      buf[at + i] := 0xAA;
      i := i + 1;
    }
    return true;
  }

  /** padding_add_PKCS1_type_1 */
  method AddType1(to: array<Byte>, tlen: nat, from: seq<Byte>) returns (ok: bool)
    requires tlen <= to.Length
    modifies to
    ensures ok <==> |from| + PaddingSize <= tlen
    ensures ok ==> to[..] == Type1(tlen, from) + old(to[tlen..])
    ensures !ok ==> to[..] == old(to[..])
  {
    if |from| > tlen - PaddingSize {
      return false;
    }
    hide Fill, Type1;
    ghost var s := to[..];
    Type1Is(tlen, from);
    var p := Front1(to, tlen - 3 - |from|);
    ghost var t := to[..];
    Put(to, p, from);
    Whole(s, t, to[..], p, from, tlen);
    return true;
  }

  /** Lines 95-104: everything in front of the data. */
  method Front1(to: array<Byte>, j: nat) returns (p: nat)
    requires j + 3 <= to.Length
    modifies to
    ensures p == j + 3 && to[..p] == [0, 1] + Fill(0xFF, j) + [0] && to[p..] == old(to[p..])
  {
    hide Fill;
    p := 0;
    to[p] := 0;
    p := p + 1;
    to[p] := 1;
    p := p + 1;
    Put(to, p, Fill(0xFF, j));
    p := p + j;
    to[p] := 0;
    p := p + 1;
    Front(to[..p], 1, Fill(0xFF, j));
  }

  lemma Type1Is(len: nat, data: seq<Byte>)
    requires |data| + PaddingSize <= len
    ensures Type1(len, data) == [0, 1] + Fill(0xFF, len - 3 - |data|) + [0] + data
  {
  }

  lemma Type2Is(len: nat, data: seq<Byte>)
    requires |data| + PaddingSize <= len
    ensures Type2(len, data) == [0, 2] + Fill(0xAA, len - 3 - |data|) + [0] + data
  {
  }

  lemma Front(t: seq<Byte>, kind: Byte, fill: seq<Byte>)
    requires |t| == |fill| + 3 && t[0] == 0 && t[1] == kind && t[2..2 + |fill|] == fill && t[2 + |fill|] == 0
    ensures t == [0, kind] + fill + [0]
  {
    assert t == t[..2] + t[2..2 + |fill|] + t[2 + |fill|..];
  }

  /** Data behind the front, and what was behind them before. */
  lemma Whole(s: seq<Byte>, t: seq<Byte>, u: seq<Byte>, p: nat, data: seq<Byte>, n: nat)
    requires |s| == |t| == |u| && p + |data| == n <= |s| && t[p..] == s[p..]
    requires u[..p] == t[..p] && u[p..n] == data && u[n..] == t[n..]
    ensures u == t[..p] + data + s[n..]
  {
    assert u == u[..p] + u[p..n] + u[n..];
    assert t[n..] == t[p..][|data|..] && s[n..] == s[p..][|data|..];
  }

  /** padding_add_PKCS1_type_2 */
  method AddType2(to: array<Byte>, tlen: nat, from: seq<Byte>) returns (ok: bool)
    requires tlen <= to.Length
    modifies to
    ensures ok <==> |from| + PaddingSize <= tlen
    ensures ok ==> to[..] == Type2(tlen, from) + old(to[tlen..])
    ensures !ok ==> to[..] == old(to[..])
  {
    if |from| > tlen - 11 {
      return false;
    }
    hide *;
    ghost var s := to[..];
    Type2Is(tlen, from);
    var p := Front2(to, tlen - 3 - |from|);
    ghost var t := to[..];
    Put(to, p, from);
    Whole(s, t, to[..], p, from, tlen);
    return true;
  }

  /** Lines 165-185: everything in front of the data. */
  method Front2(to: array<Byte>, j: nat) returns (p: nat)
    requires j + 3 <= to.Length
    modifies to
    ensures p == j + 3 && to[..p] == [0, 2] + Fill(0xAA, j) + [0] && to[p..] == old(to[p..])
  {
    p := 0;
    to[p] := 0;
    p := p + 1;
    to[p] := 2;
    p := p + 1;
    var got := GetRandBytes(to, p, j);
    NeverZero(to, p, j);
    hide Fill;
    ghost var filled := to[..];
    var i := 0;
    while i < j
      invariant i <= j && p == 2 + i && to[..] == filled
    {
      assert to[p] == 0xAA;
      if to[p] == 0 {
        assert false;
      }
      p := p + 1;
      i := i + 1;
    }
    to[p] := 0;
    p := p + 1;
    assert to[..p][2..2 + j] == filled[2..2 + j];
    Front(to[..p], 2, Fill(0xAA, j));
  }

  lemma NeverZero(to: array<Byte>, at: nat, num: nat)
    requires at + num <= to.Length && to[at..at + num] == Fill(0xAA, num)
    ensures forall k :: at <= k < at + num ==> to[k] == 0xAA
  {
    forall k | at <= k < at + num
      ensures to[k] == 0xAA
    {
      assert to[at..at + num][k - at] == Fill(0xAA, num)[k - at];
    }
  }

  // ------------------------------------------------------------------ taking data out of a block

  /** A block without its leading zero. */
  lemma Shape1(from: seq<Byte>, data: seq<Byte>)
    requires IsType1([0] + from, data)
    ensures var n := |from| - 2 - |data|;
            n >= 8 && from[0] == 1 && (forall k :: 1 <= k < 1 + n ==> from[k] == 0xFF) && from[1 + n] == 0
  {
    var block := [0] + from;
    Type1Bytes(|block|, data);
    hide IsType1;
    assert from[0] == block[..2][1];
    assert forall k :: 0 <= k < |from| ==> from[k] == block[k + 1];
  }

  lemma Shape2(from: seq<Byte>, data: seq<Byte>)
    requires IsType2([0] + from, data)
    ensures var n := |from| - 2 - |data|;
            n >= 8 && from[0] == 2 && (forall k :: 1 <= k < 1 + n ==> from[k] != 0) && from[1 + n] == 0
  {
    var block := [0] + from;
    assert from[0] == block[..2][1];
    assert forall k :: 0 <= k < |from| ==> from[k] == block[k + 1];
  }

  /** The scan stopped after i bytes of padding, and that is why the block is refused. */
  lemma Refused1(from: seq<Byte>, i: nat, tlen: nat)
    requires i < |from| && forall k :: 1 <= k < 1 + i ==> from[k] == 0xFF
    requires from[0] != 1 || 1 + i == |from|
             || (from[1 + i] != 0xFF && (from[1 + i] != 0 || i < 8 || |from| - 2 - i > tlen))
    ensures forall data :: |data| <= tlen ==> !IsType1([0] + from, data)
  {
    forall data | IsType1([0] + from, data)
      ensures |data| > tlen
    {
      Shape1(from, data);
    }
  }

  lemma Refused2(from: seq<Byte>, i: nat, tlen: nat)
    requires i < |from| && forall k :: 1 <= k < 1 + i ==> from[k] != 0
    requires from[0] != 2 || 1 + i == |from| || (from[1 + i] == 0 && (i < 8 || |from| - 2 - i > tlen))
    ensures forall data :: |data| <= tlen ==> !IsType2([0] + from, data)
  {
    forall data | IsType2([0] + from, data)
      ensures |data| > tlen
    {
      Shape2(from, data);
    }
  }

  lemma Unshape(from: seq<Byte>, n: nat)
    requires n >= 8 && 2 + n <= |from| && from[1 + n] == 0
    ensures from[0] == 1 && (forall k :: 1 <= k < 1 + n ==> from[k] == 0xFF) ==> IsType1([0] + from, from[2 + n..])
    ensures from[0] == 2 && (forall k :: 1 <= k < 1 + n ==> from[k] != 0) ==> IsType2([0] + from, from[2 + n..])
  {
    var block := [0] + from;
    assert block[3 + n..] == from[2 + n..];
    if from[0] == 1 && forall k :: 1 <= k < 1 + n ==> from[k] == 0xFF {
      Type1From(block, n, from[2 + n..]);
    }
  }

  /** padding_check_PKCS1_type_1: from is a block without its leading zero. The result is the
      length of the data, or -1. */
  method CheckType1(to: array<Byte>, tlen: nat, from: seq<Byte>, num: int) returns (r: int)
    requires from != [] && tlen <= to.Length
    modifies to
    ensures r >= 0 <==> num == |from| + 1 && exists data :: |data| <= tlen && IsType1([0] + from, data)
    ensures r >= 0 ==> r <= tlen && IsType1([0] + from, to[..r]) && to[r..] == old(to[r..])
    ensures r < 0 ==> r == -1 && to[..] == old(to[..])
  {
    hide IsType1, IsType2;
    var p := 0;
    if num != |from| + 1 || from[p] != 1 {
      if num == |from| + 1 {
        Refused1(from, 0, tlen);
      }
      return -1;
    }
    p := p + 1;
    var j := |from| - 1;
    var i := 0;
    while i < j
      invariant 0 <= i <= j && p == 1 + i
      invariant forall k :: 1 <= k < p ==> from[k] == 0xFF
    {
      if from[p] != 0xFF {
        if from[p] == 0 {
          p := p + 1;
          break;
        } else {
          Refused1(from, i, tlen);
          return -1;
        }
      }
      p := p + 1;
      i := i + 1;
    }
    if i == j {
      Refused1(from, i, tlen);
      return -1;
    }
    if i < 8 {
      Refused1(from, i, tlen);
      return -1;
    }
    Unshape(from, i);
    i := i + 1;
    j := j - i;
    if j > tlen {
      Refused1(from, i - 1, tlen);
      return -1;
    }
    Put(to, 0, from[p..p + j]);
    assert to[..j] == to[0..0 + j] == from[p..];
    return j;
  }

  /** padding_check_PKCS1_type_2 */
  method CheckType2(to: array<Byte>, tlen: nat, from: seq<Byte>, num: int) returns (r: int)
    requires from != [] && tlen <= to.Length
    modifies to
    ensures r >= 0 <==> num == |from| + 1 && exists data :: |data| <= tlen && IsType2([0] + from, data)
    ensures r >= 0 ==> r <= tlen && IsType2([0] + from, to[..r]) && to[r..] == old(to[r..])
    ensures r < 0 ==> r == -1 && to[..] == old(to[..])
  {
    hide IsType1, IsType2;
    var p := 0;
    if num != |from| + 1 || from[p] != 2 {
      if num == |from| + 1 {
        Refused2(from, 0, tlen);
      }
      return -1;
    }
    p := p + 1;
    var j := |from| - 1;
    var i := 0;
    while i < j
      invariant 0 <= i <= j && p == 1 + i
      invariant forall k :: 1 <= k < p ==> from[k] != 0
    {
      p := p + 1;
      if from[p - 1] == 0 {
        break;
      }
      i := i + 1;
    }
    if i == j {
      Refused2(from, i, tlen);
      return -1;
    }
    if i < 8 {
      Refused2(from, i, tlen);
      return -1;
    }
    Unshape(from, i);
    i := i + 1;
    j := j - i;
    if j > tlen {
      Refused2(from, i - 1, tlen);
      return -1;
    }
    Put(to, 0, from[p..p + j]);
    assert to[..j] == to[0..0 + j] == from[p..];
    return j;
  }

  // ------------------------------------------------------------------ there and back

  /** What the add functions make, the check functions take apart again. */
  method ThereAndBack(data: seq<Byte>, len: nat, private: bool) returns (back: seq<Byte>)
    requires |data| + PaddingSize <= len
    ensures back == data
  {
    var block, out := new Byte[len](i => 0), new Byte[len](i => 0);
    var added, r;
    if private {
      added := AddType1(block, len, data);
      assert IsType1(block[..], data);
    } else {
      added := AddType2(block, len, data);
      assert IsType2(block[..], data);
    }
    ghost var b := block[..];
    assert [0] + block[1..] == b;
    if private {
      r := CheckType1(out, len, block[1..], len);
    } else {
      r := CheckType2(out, len, block[1..], len);
    }
    DataIsUnique(b, data, out[..r]);
    back := out[..r];
  }

  /** What is taken out of a block of type 1 makes the same block again. */
  method BackAndThere(block: seq<Byte>) returns (again: seq<Byte>, r: int)
    requires |block| > 1 && block[0] == 0
    ensures r >= 0 ==> again == block
    ensures r < 0 <==> forall data :: !IsType1(block, data)
  {
    var to, out := new Byte[|block|](i => 0), new Byte[|block|](i => 0);
    assert [0] + block[1..] == block;
    r := CheckType1(out, |block|, block[1..], |block|);
    if r >= 0 {
      var ok := AddType1(to, |block|, out[..r]);
    }
    again := to[..];
  }

  /** invert_char */
  method InvertChar(src: array<Byte>, len: nat)
    requires len <= src.Length
    modifies src
    ensures src[..] == Reversed(old(src[..len])) + old(src[len..])
  {
    ghost var was, rest := src[..len], src[len..];
    var i, j := 0, len - 1;
    while i < j
      invariant 0 <= i && j == len - 1 - i && i <= j + 2
      invariant src[..] == HalfReversed(was, i) + rest
    {
      var tmp := src[i];
      src[i] := src[j];
      src[j] := tmp;
      i := i + 1;
      j := j - 1;
    }
    assert HalfReversed(was, i) == Reversed(was);
  }

  /** The first and the last i elements are swapped. */
  ghost function HalfReversed(s: seq<Byte>, i: nat): (r: seq<Byte>)
    ensures |r| == |s|
  {
    seq(|s|, k requires 0 <= k < |s| => if k < i || |s| - 1 - i < k then s[|s| - 1 - k] else s[k])
  }

  function Reversed(s: seq<Byte>): (r: seq<Byte>)
    ensures |r| == |s| && forall k :: 0 <= k < |s| ==> r[k] == s[|s| - 1 - k]
  {
    if s == [] then [] else Reversed(s[1..]) + [s[0]]
  }
}
