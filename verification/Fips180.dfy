/** SHA-256 as FIPS 180-4 states it: the functions of section 4.1.2, the constants of
    4.2.2, the padding of 5.1.1 and the hash computation of 6.2.2. */
module Fips180 {

  type Word = bv32
  type Byte = bv8

  /** Rotation right by n; the amount is a bit vector so that shifts stay within one sort. */
  function Rotr(x: Word, n: bv6): Word
    requires 0 < n < 32
  {
    (x >> n) | (x << 32 - n)
  }

  function Shr(x: Word, n: bv6): Word
    requires n < 32
  {
    x >> n
  }

  /** Addition modulo 2^32. */
  function Plus(a: Word, b: Word): Word { a + b }

  function Ch(x: Word, y: Word, z: Word): Word { (x & y) ^ (!x & z) }
  function Maj(x: Word, y: Word, z: Word): Word { (x & y) ^ (x & z) ^ (y & z) }
  function BigSigma0(x: Word): Word { Rotr(x, 2) ^ Rotr(x, 13) ^ Rotr(x, 22) }
  function BigSigma1(x: Word): Word { Rotr(x, 6) ^ Rotr(x, 11) ^ Rotr(x, 25) }
  function SmallSigma0(x: Word): Word { Rotr(x, 7) ^ Rotr(x, 18) ^ Shr(x, 3) }
  function SmallSigma1(x: Word): Word { Rotr(x, 17) ^ Rotr(x, 19) ^ Shr(x, 10) }

  /** The constants, in the eight rows in which the standard prints them. */
  const KRows: seq<seq<Word>> := [
    [0x428a2f98, 0x71374491, 0xb5c0fbcf, 0xe9b5dba5, 0x3956c25b, 0x59f111f1, 0x923f82a4, 0xab1c5ed5],
    [0xd807aa98, 0x12835b01, 0x243185be, 0x550c7dc3, 0x72be5d74, 0x80deb1fe, 0x9bdc06a7, 0xc19bf174],
    [0xe49b69c1, 0xefbe4786, 0x0fc19dc6, 0x240ca1cc, 0x2de92c6f, 0x4a7484aa, 0x5cb0a9dc, 0x76f988da],
    [0x983e5152, 0xa831c66d, 0xb00327c8, 0xbf597fc7, 0xc6e00bf3, 0xd5a79147, 0x06ca6351, 0x14292967],
    [0x27b70a85, 0x2e1b2138, 0x4d2c6dfc, 0x53380d13, 0x650a7354, 0x766a0abb, 0x81c2c92e, 0x92722c85],
    [0xa2bfe8a1, 0xa81a664b, 0xc24b8b70, 0xc76c51a3, 0xd192e819, 0xd6990624, 0xf40e3585, 0x106aa070],
    [0x19a4c116, 0x1e376c08, 0x2748774c, 0x34b0bcb5, 0x391c0cb3, 0x4ed8aa4a, 0x5b9cca4f, 0x682e6ff3],
    [0x748f82ee, 0x78a5636f, 0x84c87814, 0x8cc70208, 0x90befffa, 0xa4506ceb, 0xbef9a3f7, 0xc67178f2]]

  function K(t: nat): Word
    requires t < 64
  {
    KRow(t / 8)[t % 8]
  }

  function KRow(i: nat): (r: seq<Word>)
    requires i < 8
    ensures |r| == 8
  {
    KRows[i]
  }

  const InitialHash: seq<Word> := [
    0x6A09E667, 0xBB67AE85, 0x3C6EF372, 0xA54FF53A, 0x510E527F, 0x9B05688C, 0x1F83D9AB, 0x5BE0CD19]

  /** Bytes are joined to words, and words split to bytes, most significant first. */
  function ToWord(b0: Byte, b1: Byte, b2: Byte, b3: Byte): Word {
    (b0 as bv32 << 24) | (b1 as bv32 << 16) | (b2 as bv32 << 8) | b3 as bv32
  }

  function ToBytes(x: Word): (b: seq<Byte>)
    ensures |b| == 4
  {
    [(x >> 24) as bv8, ((x >> 16) & 0xff) as bv8, ((x >> 8) & 0xff) as bv8, (x & 0xff) as bv8]
  }

  /** The message schedule W_t. */
  function Schedule(block: seq<Byte>, t: nat): Word
    requires |block| == 64
  {
    if t < 16 then ToWord(block[4 * t], block[4 * t + 1], block[4 * t + 2], block[4 * t + 3])
    else Plus(Plus(Plus(SmallSigma1(Schedule(block, t - 2)), Schedule(block, t - 7)),
                   SmallSigma0(Schedule(block, t - 15))), Schedule(block, t - 16))
  }

  /** One round on the working variables a..h. */
  function Round(v: seq<Word>, k: Word, w: Word): (v': seq<Word>)
    requires |v| == 8
    ensures |v'| == 8
  {
    var t1 := Plus(Plus(Plus(Plus(v[7], BigSigma1(v[4])), Ch(v[4], v[5], v[6])), k), w);
    var t2 := Plus(BigSigma0(v[0]), Maj(v[0], v[1], v[2]));
    [Plus(t1, t2), v[0], v[1], v[2], Plus(v[3], t1), v[4], v[5], v[6]]
  }

  /** The working variables after the first t rounds. */
  function Rounds(h: seq<Word>, block: seq<Byte>, t: nat): (v: seq<Word>)
    requires |h| == 8 && |block| == 64 && t <= 64
    ensures |v| == 8
  {
    if t == 0 then h else Round(Rounds(h, block, t - 1), K(t - 1), Schedule(block, t - 1))
  }

  function Compress(h: seq<Word>, block: seq<Byte>): (h': seq<Word>)
    requires |h| == 8 && |block| == 64
    ensures |h'| == 8
  {
    var v := Rounds(h, block, 64);
    seq(8, i requires 0 <= i < 8 => Plus(h[i], v[i]))
  }

  /** The chaining value after all blocks of a message of whole blocks. */
  function HashBlocks(m: seq<Byte>): (h: seq<Word>)
    requires |m| % 64 == 0
    ensures |h| == 8
  {
    if m == [] then InitialHash else Compress(HashBlocks(m[..|m| - 64]), m[|m| - 64..])
  }

  function Zeros(n: nat): (z: seq<Byte>)
    ensures |z| == n
  {
    seq(n, i => 0)
  }

  /** The number of zero bytes after the byte 0x80. */
  function PadLength(len: nat): nat {
    (119 - len % 64) % 64
  }

  /** In bits: one bit 1 and k zero bits, k the smallest for which l + 1 + k is 448 modulo
      512, where l is the length of the message. */
  lemma PadLengthIsSmallest(len: nat, k: nat)
    ensures (8 * len + 1 + (8 * PadLength(len) + 7)) % 512 == 448
    ensures (8 * len + 1 + k) % 512 == 448 ==> 8 * PadLength(len) + 7 <= k
  {
    var q, r := len / 64, len % 64;
    assert 8 * len == 512 * q + 8 * r;
    var p := PadLength(len);
    assert 8 * r + 8 * p + 8 == 448 || 8 * r + 8 * p + 8 == 960;
    if (8 * len + 1 + k) % 512 == 448 {
      var d := (8 * len + 1 + k) / 512;
      assert 8 * r + 1 + k == 448 + 512 * (d - q);
    }
  }

  /** n in `width` bytes, most significant first. */
  function BigEndian(n: nat, width: nat): (b: seq<Byte>)
    ensures |b| == width
  {
    if width == 0 then [] else BigEndian(n / 256, width - 1) + [(n % 256) as bv8]
  }

  lemma PadLengthFits(len: nat)
    ensures (len + 1 + PadLength(len) + 8) % 64 == 0
  {
    var q, r := len / 64, len % 64;
    assert r + 1 + PadLength(len) + 8 == if r < 56 then 64 else 128;
  }

  function Pad(m: seq<Byte>): (p: seq<Byte>)
    ensures |p| % 64 == 0
  {
    PadLengthFits(|m|);
    m + [0x80] + Zeros(PadLength(|m|)) + BigEndian(8 * |m|, 8)
  }

  function WordsToBytes(h: seq<Word>): (b: seq<Byte>)
    ensures |b| == 4 * |h|
  {
    if h == [] then [] else WordsToBytes(h[..|h| - 1]) + ToBytes(h[|h| - 1])
  }

  /** The digest of a message. */
  function Sha256(m: seq<Byte>): (d: seq<Byte>)
    ensures |d| == 32
  {
    WordsToBytes(HashBlocks(Pad(m)))
  }
}
