/** The streaming hash of sprdsha.h and sprdsha256.c, proved to give the digest of the
    concatenation of everything it was fed. */
module Sha256 {
  import opened Arithmetic
  import opened Buffers
  import Bytes
  import opened Fips180
  import opened Sha256Compress

  const U64Size := 0x1_0000_0000_0000_0000
  const CryptOk := 0
  const CryptInvalidArg := 1

  class HashState {
    var length: nat  // uint64_t: bits already compressed
    const state: array<Word>
    var curlen: nat  // uint32_t: bytes waiting in buf
    const buf: array<Byte>
    ghost var Message: seq<Byte>  // everything absorbed so far

    ghost predicate Shape()
      reads this
    {
      state.Length == 8 && buf.Length == 64
    }

    ghost predicate Valid()
      reads this, state, buf
    {
      && Shape()
      && curlen < 64
      && Holds(Message, state[..], buf[..curlen], length)
    }

    /** sha256_init on fresh storage. */
    constructor ()
      ensures Valid() && Message == [] && fresh(state) && fresh(buf)
    {
      state := new Word[8](i requires 0 <= i < 8 => InitialHash[i]);
      buf := new Byte[64];
      Message := [];
      curlen := 0;
      length := 0;
      new;
      hide Holds, InitialHash;
      assert state[..] == InitialHash;
      HoldsNothing();
      assert buf[..0] == [];
    }

    /** sha256_compress on the 64 bytes of src at off. */
    method CompressBlock(src: array<Byte>, off: nat)
      requires Shape() && off + 64 <= src.Length
      modifies state
      ensures state[..] == Compress(old(state[..]), old(src[off..off + 64]))
    {
      hide Plus, Schedule, Rounds;
      var s, w := new Word[8], new Word[64];
      ghost var h, block := state[..], src[off..off + 64];
      for i := 0 to 8
        invariant s[..i] == h[..i] && state[..] == h
      {
        s[i] := state[i];
      }
      assert s[..] == h;
      FillSchedule(w, src, off);
      Unrolled(s, w, h, block);
      for i := 0 to 8
        modifies state
        invariant s[..] == Rounds(h, block, 64)
        invariant forall j :: 0 <= j < i ==> state[j] == Plus(h[j], s[j])
        invariant forall j :: i <= j < 8 ==> state[j] == h[j]
      {
        state[i] := Plus(state[i], s[i]);
      }
    }

    /** The HASH_PROCESS loop: whole blocks straight from the input while the buffer is
        empty, otherwise through the buffer. */
    method Process(input: array<Byte>, inlen: nat) returns (err: int)
      requires Valid() && inlen <= input.Length && input != buf
      modifies this`length, this`curlen, this`Message, state, buf
      ensures Valid() && err == CryptOk
      ensures Message == old(Message) + old(input[..inlen])
    {
      if curlen > buf.Length {
        return CryptInvalidArg;
      }
      assert curlen < 64;
      hide *;
      ghost var whole, base := input[..], Message;
      var off: nat, left: nat := 0, inlen;
      while left > 0
        invariant Valid() && off + left == inlen
        invariant Message == base + whole[..off]
        invariant input[..] == whole && curlen < 64
        decreases left
      {
        ghost var start := off;
        if curlen == 0 && left >= 64 {
          AbsorbBlock(input, off);
          off := off + 64;
          left := left - 64;
        } else {
          var n := if left < 64 - curlen then left else 64 - curlen;
          AbsorbPiece(input, off, n);
          off := off + n;
          left := left - n;
        }
        assert input[start..off] == input[..][start..off];
        Appended(base, whole, start, off);
      }
      assert whole[..off] == old(input[..inlen]);
      return CryptOk;
    }

    /** A whole block taken straight from the input. */
    method AbsorbBlock(input: array<Byte>, off: nat)
      requires Valid() && curlen == 0 && off + 64 <= input.Length
      modifies this`length, this`Message, state
      ensures Valid() && curlen < 64 && Message == old(Message) + input[off..off + 64]
    {
      hide Compress, Holds;
      ghost var block := input[off..off + 64];
      HoldsWhole(Message, state[..], [], length, block);
      assert buf[..curlen] == [] && [] + block == block;
      CompressBlock(input, off);
      length := (length + 64 * 8) % U64Size;
      Message := Message + block;
    }

    /** Up to a block taken through the buffer. */
    method AbsorbPiece(input: array<Byte>, off: nat, n: nat)
      requires Valid() && off + n <= input.Length && curlen + n <= 64 && input != buf
      modifies this`length, this`curlen, this`Message, state, buf
      ensures Valid() && curlen < 64 && Message == old(Message) + input[off..off + n]
    {
      hide Compress, Holds;
      ghost var piece := input[off..off + n];
      ghost var waiting := buf[..curlen];
      Copy(input, off, n);
      curlen := curlen + n;
      if curlen == 64 {
        HoldsWhole(Message, state[..], waiting, length, piece);
        assert buf[0..0 + 64] == waiting + piece;
        CompressBlock(buf, 0);
        length := (length + 8 * 64) % U64Size;
        curlen := 0;
        assert buf[..0] == [];
      } else {
        HoldsPart(Message, state[..], waiting, length, piece);
      }
      Message := Message + piece;
    }

    /** memcpy of n input bytes behind the waiting ones. */
    method Copy(input: array<Byte>, off: nat, n: nat)
      requires Shape() && off + n <= input.Length && curlen + n <= 64 && input != buf
      modifies buf
      ensures buf[..curlen + n] == old(buf[..curlen]) + input[off..off + n]
    {
      Put(buf, curlen, input[off..off + n]);
    }

    /** sha256_done: padding, the length, the last one or two blocks, and the digest. */
    method Done(out: array<Byte>) returns (err: int)
      requires Valid() && 8 * |Message| < U64Size && out.Length >= 32 && out != buf
      modifies this`length, this`curlen, state, buf, out
      ensures err == CryptOk && out[..32] == Fips180.Sha256(Message) && out[32..] == old(out[32..])
    {
      if curlen >= buf.Length {
        return CryptInvalidArg;
      }
      LastBlocks();
      StoreDigest(out);
      hide HashBlocks, Pad;
      DigestOf(Message, state[..]);
      return CryptOk;
    }

    /** Lines 268-293: everything up to the chaining value of the padded message. */
    method LastBlocks()
      requires Valid() && 8 * |Message| < U64Size
      modifies this`length, this`curlen, state, buf
      ensures state[..] == HashBlocks(Pad(Message))
    {
      hide Compress, HashBlocks, Pad, BigEndian, Holds;
      HoldsTail(Message, state[..], buf[..curlen], length);
      ghost var counted := length;
      length := (length + curlen * 8) % U64Size;
      AppendPadding(counted);
      FinalBlock();
    }

    /** Lines 291-293. */
    method FinalBlock()
      requires Shape()
      modifies state, buf
      ensures state[..] == Compress(old(state[..]), old(buf[..56]) + BigEndian(length, 8))
    {
      hide Compress, BigEndian;
      StoreLength();
      assert buf[0..0 + 64] == buf[..56] + buf[56..];
      CompressBlock(buf, 0);
    }

    /** Lines 271-289: the byte 0x80 and the zeros, so that only the length is missing from
        the last block. */
    method AppendPadding(ghost counted: nat)
      requires Shape() && curlen < 64 && Holds(Message, state[..], buf[..curlen], counted)
      modifies this`curlen, state, buf
      ensures HashBlocks(Pad(Message)) == Compress(state[..], buf[..56] + BigEndian(8 * |Message|, 8))
    {
      hide Compress, HashBlocks, Pad, BigEndian;
      ghost var rest := buf[..curlen];
      ghost var body := Message[..|Message| - |rest|];
      assert Message == body + rest;
      buf[curlen] := 0x80;
      curlen := curlen + 1;
      if curlen > 56 {
        TwoMoreBlocks(body, rest);
        FillZeros(64);
        assert buf[0..0 + 64] == Full(rest);
        CompressBlock(buf, 0);
        curlen := 0;
        FillZeros(56);
        assert buf[..56] == Zeros(56);
      } else {
        OneMoreBlock(body, rest);
        FillZeros(56);
        assert buf[..56] == Short(rest);
      }
    }

    method FillZeros(end: nat)
      requires Shape() && curlen <= end <= 64
      modifies this`curlen, buf
      ensures curlen == end && buf[..end] == old(buf[..curlen]) + Zeros(end - old(curlen))
    {
      ghost var start := curlen;
      while curlen < end
        invariant start <= curlen <= end
        invariant buf[..curlen] == old(buf[..curlen]) + Zeros(curlen - start)
      {
        buf[curlen] := 0;
        curlen := curlen + 1;
      }
    }

    /** STORE64H of the length behind the padding. */
    method StoreLength()
      requires Shape()
      modifies buf
      ensures buf[..56] == old(buf[..56]) && buf[56..] == BigEndian(length, 8)
    {
      Put(buf, 56, Store64H(length));
    }

    /** STORE32H of the eight words. */
    method StoreDigest(out: array<Byte>)
      requires Shape() && out.Length >= 32
      modifies out
      ensures out[..32] == WordsToBytes(state[..]) && out[32..] == old(out[32..])
    {
      hide ToBytes;
      for i := 0 to 8
        invariant state[..] == old(state[..])
        invariant out[..4 * i] == WordsToBytes(state[..i]) && out[32..] == old(out[32..])
      {
        var b := ToBytes(state[i]);
        out[4 * i], out[4 * i + 1], out[4 * i + 2], out[4 * i + 3] := b[0], b[1], b[2], b[3];
        assert state[..i + 1][..i] == state[..i];
        assert out[..4 * (i + 1)] == out[..4 * i] + b;
      }
      assert state[..8] == state[..];
    }
  }

  lemma Appended(base: seq<Byte>, whole: seq<Byte>, a: nat, b: nat)
    requires a <= b <= |whole|
    ensures base + whole[..a] + whole[a..b] == base + whole[..b]
  {
    assert whole[..a] + whole[a..b] == whole[..b];
  }

  /** What the fields hold after absorbing m: the chaining value of the whole blocks, the
      rest b, and the bits of the whole blocks in a uint64_t. */
  ghost predicate Holds(m: seq<Byte>, h: seq<Word>, b: seq<Byte>, len: nat) {
    && |b| < 64 && |b| <= |m| && (|m| - |b|) % 64 == 0
    && h == HashBlocks(m[..|m| - |b|])
    && b == m[|m| - |b|..]
    && len == BitCount(|m| - |b|)
  }

  /** The bits of that many bytes, in a uint64_t. */
  ghost function BitCount(bytes: nat): nat {
    8 * bytes % U64Size
  }

  lemma HoldsNothing()
    ensures Holds([], InitialHash, [], 0)
  {
  }

  /** A piece that leaves the waiting block incomplete. */
  lemma HoldsPart(m: seq<Byte>, h: seq<Word>, b: seq<Byte>, len: nat, piece: seq<Byte>)
    requires Holds(m, h, b, len) && |b| + |piece| < 64
    ensures Holds(m + piece, h, b + piece, len)
  {
    hide HashBlocks;
    var c := |m| - |b|;
    assert (m + piece)[..c] == m[..c] && (m + piece)[c..] == m[c..] + piece;
  }

  /** One more block behind whole blocks; len counts its bits too. */
  lemma BlockAdded(body: seq<Byte>, block: seq<Byte>, h: seq<Word>, len: nat)
    requires |body| % 64 == 0 && |block| == 64 && h == HashBlocks(body) && len == BitCount(|body| + 64)
    ensures |h| == 8 && Holds(body + block, Compress(h, block), [], len)
  {
    hide Compress, HashBlocks, BitCount;
    var m := body + block;
    LastBlock(body, block);
    assert m[..|m|] == m;
  }

  /** The whole blocks. */
  lemma HoldsBody(m: seq<Byte>, h: seq<Word>, b: seq<Byte>, len: nat) returns (body: seq<Byte>)
    requires Holds(m, h, b, len)
    ensures m == body + b && |body| % 64 == 0 && h == HashBlocks(body) && len == BitCount(|body|)
  {
    hide HashBlocks, BitCount;
    body := m[..|m| - |b|];
  }

  /** A piece that completes it. */
  lemma HoldsWhole(m: seq<Byte>, h: seq<Word>, b: seq<Byte>, len: nat, piece: seq<Byte>)
    requires Holds(m, h, b, len) && |b| + |piece| == 64
    ensures |h| == 8 && Holds(m + piece, Compress(h, b + piece), [], (len + 512) % U64Size)
  {
    LengthWraps(|m| - |b|);
    var body := HoldsBody(m, h, b, len);
    hide Compress, HashBlocks, BitCount, Holds;
    BlockAdded(body, b + piece, h, (len + 512) % U64Size);
    assert m + piece == body + (b + piece);
  }

  lemma LengthWraps(bytes: nat)
    ensures (BitCount(bytes) + 512) % U64Size == BitCount(bytes + 64)
  {
  }

  /** Line 269 counts the waiting bytes: the field then holds the message's bits. */
  lemma HoldsTail(m: seq<Byte>, h: seq<Word>, b: seq<Byte>, len: nat)
    requires Holds(m, h, b, len) && 8 * |m| < U64Size
    ensures (len + |b| * 8) % U64Size == 8 * |m|
  {
    SmallMod(8 * (|m| - |b|));
    SmallMod(8 * |m|);
    hide *;
  }

  lemma SmallMod(x: nat)
    requires x < U64Size
    ensures x % U64Size == x
  {
  }

  lemma DigestOf(m: seq<Byte>, h: seq<Word>)
    requires h == HashBlocks(Pad(m))
    ensures WordsToBytes(h) == Fips180.Sha256(m)
  {
    hide HashBlocks, Pad, WordsToBytes;
  }

  /** (x >> 8k) & 255. */
  function ByteAt(x: nat, k: nat): Byte {
    ((x / Bytes.Exp256(k)) % 256) as bv8
  }

  lemma EachByte(x: nat)
    ensures forall i {:trigger BigEndian(x, 8)[i]} :: 0 <= i < 8 ==> BigEndian(x, 8)[i] == ByteAt(x, 7 - i)
  {
    hide ByteAt, BigEndian;
    forall i | 0 <= i < 8
      ensures BigEndian(x, 8)[i] == ByteAt(x, 7 - i)
    {
      BigEndianAt(x, 8, i);
    }
  }

  lemma EightBytes(b: seq<Byte>)
    requires |b| == 8
    ensures b == [b[0], b[1], b[2], b[3], b[4], b[5], b[6], b[7]]
  {
  }

  /** STORE64H: eight shifts. */
  function Store64H(x: nat): (b: seq<Byte>)
    ensures b == BigEndian(x, 8)
  {
    hide ByteAt, BigEndian;
    EightBytes(BigEndian(x, 8));
    EachByte(x);
    [ByteAt(x, 7), ByteAt(x, 6), ByteAt(x, 5), ByteAt(x, 4), ByteAt(x, 3), ByteAt(x, 2), ByteAt(x, 1), ByteAt(x, 0)]
  }

  lemma {:induction false} BigEndianAt(n: nat, width: nat, i: nat)
    requires i < width
    ensures BigEndian(n, width)[i] == ByteAt(n, width - 1 - i)
  {
    if i < width - 1 {
      BigEndianAt(n / 256, width - 1, i);
      ShiftTwice(n, Bytes.Exp256(width - 2 - i));
    }
  }

  lemma ShiftTwice(n: nat, e: nat)
    requires e > 0
    ensures n / 256 / e == n / (256 * e)
  {
    var q, r := n / 256 / e, n / 256 % e;
    assert n / 256 == q * e + r;
    assert n == q * (256 * e) + (256 * r + n % 256) by { assert q * (256 * e) == 256 * (q * e); }
    QuotientRemainder(n, 256 * e, q, 256 * r + n % 256);
  }

  lemma PadLengthOf(body: seq<Byte>, rest: seq<Byte>)
    requires |body| % 64 == 0 && |rest| < 64
    ensures PadLength(|body + rest|) == if |rest| < 56 then 55 - |rest| else 119 - |rest|
  {
    assert |body + rest| % 64 == |rest|;
  }

  /** What fills a block behind the rest of the message, with and without room for the
      length. */
  ghost function Short(rest: seq<Byte>): (b: seq<Byte>)
    requires |rest| < 56
    ensures |b| == 56
  {
    rest + [0x80] + Zeros(55 - |rest|)
  }

  ghost function Full(rest: seq<Byte>): (b: seq<Byte>)
    requires |rest| < 64
    ensures |b| == 64
  {
    rest + [0x80] + Zeros(63 - |rest|)
  }

  /** The padded message ends in one block when its length still fits. */
  lemma OneMoreBlock(body: seq<Byte>, rest: seq<Byte>)
    requires |body| % 64 == 0 && |rest| < 56
    ensures HashBlocks(Pad(body + rest)) == Compress(HashBlocks(body), Short(rest) + BigEndian(8 * |body + rest|, 8))
  {
    hide *;
    PadInOne(body, rest);
    LastBlock(body, Short(rest) + BigEndian(8 * |body + rest|, 8));
  }

  lemma PadInOne(body: seq<Byte>, rest: seq<Byte>)
    requires |body| % 64 == 0 && |rest| < 56
    ensures Pad(body + rest) == body + (Short(rest) + BigEndian(8 * |body + rest|, 8))
  {
    hide BigEndian;
    PadLengthOf(body, rest);
  }

  /** Otherwise it takes two more blocks. */
  lemma TwoMoreBlocks(body: seq<Byte>, rest: seq<Byte>)
    requires |body| % 64 == 0 && 56 <= |rest| < 64
    ensures HashBlocks(Pad(body + rest))
         == Compress(Compress(HashBlocks(body), Full(rest)), Zeros(56) + BigEndian(8 * |body + rest|, 8))
  {
    hide *;
    PadInTwo(body, rest);
    LastTwoBlocks(body, Full(rest), Zeros(56) + BigEndian(8 * |body + rest|, 8));
  }

  lemma LastTwoBlocks(m: seq<Byte>, b: seq<Byte>, b': seq<Byte>)
    requires |m| % 64 == 0 && |b| == |b'| == 64
    ensures |m + b + b'| % 64 == 0 && HashBlocks(m + b + b') == Compress(Compress(HashBlocks(m), b), b')
  {
    hide *;
    assert |m + b| % 64 == 0;
    LastBlock(m, b);
    LastBlock(m + b, b');
  }

  lemma PadInTwo(body: seq<Byte>, rest: seq<Byte>)
    requires |body| % 64 == 0 && 56 <= |rest| < 64
    ensures Pad(body + rest) == body + Full(rest) + (Zeros(56) + BigEndian(8 * |body + rest|, 8))
  {
    hide BigEndian;
    PadLengthOf(body, rest);
    ZerosSplit(63 - |rest|, 56);
  }

  lemma ZerosSplit(m: nat, n: nat)
    ensures Zeros(m + n) == Zeros(m) + Zeros(n)
  {
  }

  lemma LastBlock(m: seq<Byte>, block: seq<Byte>)
    requires |m| % 64 == 0 && |block| == 64
    ensures HashBlocks(m + block) == Compress(HashBlocks(m), block)
  {
    assert (m + block)[..|m|] == m && (m + block)[|m|..] == block;
  }

  /** The concatenation of the pieces. */
  ghost function Joined(pieces: seq<seq<Byte>>): seq<Byte> {
    if pieces == [] then [] else Joined(pieces[..|pieces| - 1]) + pieces[|pieces| - 1]
  }

  lemma JoinedStep(pieces: seq<seq<Byte>>, i: nat)
    requires i < |pieces|
    ensures Joined(pieces[..i + 1]) == Joined(pieces[..i]) + pieces[i]
  {
    assert pieces[..i + 1][..i] == pieces[..i];
  }

  lemma NoneJoined(pieces: seq<seq<Byte>>)
    requires pieces == []
    ensures Joined(pieces) == []
  {
  }

  /** Feeds the inputs to a new hash state, one call each. */
  method Feed(inputs: seq<array<Byte>>, ghost pieces: seq<seq<Byte>>) returns (md: HashState)
    requires |inputs| == |pieces| && forall i :: 0 <= i < |inputs| ==> inputs[i][..] == pieces[i]
    ensures fresh(md) && fresh(md.state) && fresh(md.buf)
    ensures md.Valid() && md.Message == Joined(pieces)
  {
    hide HashState.Valid, Joined;
    md := new HashState();
    NoneJoined(pieces[..0]);
    for i := 0 to |inputs|
      invariant md.Valid() && fresh(md) && fresh(md.state) && fresh(md.buf)
      invariant md.Message == Joined(pieces[..i])
      invariant forall j :: 0 <= j < |inputs| ==> inputs[j][..] == pieces[j]
    {
      var input := inputs[i];
      var err := md.Process(input, input.Length);
      assert pieces[i] == old(input[..input.Length]);
      JoinedStep(pieces, i);
    }
    assert pieces[..|inputs|] == pieces;
  }

  /** However the message is cut into calls of the process function, the digest is that of
      the whole message. */
  method HashInPieces(inputs: seq<array<Byte>>, ghost pieces: seq<seq<Byte>>) returns (digest: seq<Byte>)
    requires |inputs| == |pieces| && forall i :: 0 <= i < |inputs| ==> inputs[i][..] == pieces[i]
    requires 8 * |Joined(pieces)| < U64Size
    ensures digest == Fips180.Sha256(Joined(pieces))
  {
    hide HashState.Valid, Joined, Fips180.Sha256;
    var md := Feed(inputs, pieces);
    var out := new Byte[32];
    var err := md.Done(out);
    digest := out[..32];
  }
}
