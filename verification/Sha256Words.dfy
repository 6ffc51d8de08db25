/** The word macros of sprdsha.h and sprdsha256.c: each contract names the function of the
    standard that the macro computes.  Sums of words are taken modulo 2^32, which is what is
    left of the source's 64-bit sums once they are stored in a uint32_t. */
module Sha256Words {
  import opened Fips180

  /** ROR: the rotation is computed in 64 bits and masked to 32. */
  function S(x: Word, n: bv6): (r: Word)
    requires 0 < n < 32
    ensures r == Rotr(x, n)
  {
    RorBits(x, n);
    (((((x as bv64) & 0xFFFFFFFF) >> n) | ((x as bv64) << 32 - n)) & 0xFFFFFFFF) as bv32
  }

  lemma RorBits(x: bv32, n: bv6)
    requires 0 < n < 32
    ensures (((((x as bv64) & 0xFFFFFFFF) >> n) | ((x as bv64) << 32 - n)) & 0xFFFFFFFF) as bv32
         == (x >> n) | (x << 32 - n)
  {
  }

  function R(x: Word, n: bv6): (r: Word)
    requires n < 32
    ensures r == Shr(x, n)
  {
    ((((x as bv64) & 0xFFFFFFFF) >> n) & 0xFFFFFFFF) as bv32
  }

  /** Choice and majority are rewritten to use fewer operations. */
  function ChMacro(x: Word, y: Word, z: Word): (r: Word)
    ensures r == Ch(x, y, z)
  {
    ChBits(x, y, z);
    z ^ (x & (y ^ z))
  }

  lemma ChBits(x: bv32, y: bv32, z: bv32)
    ensures z ^ (x & (y ^ z)) == (x & y) ^ (!x & z)
  {
  }

  function MajMacro(x: Word, y: Word, z: Word): (r: Word)
    ensures r == Maj(x, y, z)
  {
    MajBits(x, y, z);
    ((x | y) & z) | (x & y)
  }

  lemma MajBits(x: bv32, y: bv32, z: bv32)
    ensures ((x | y) & z) | (x & y) == (x & y) ^ (x & z) ^ (y & z)
  {
  }

  function Sigma0Macro(x: Word): (r: Word)
    ensures r == BigSigma0(x)
  {
    hide S, Rotr;
    S(x, 2) ^ S(x, 13) ^ S(x, 22)
  }

  function Sigma1Macro(x: Word): (r: Word)
    ensures r == BigSigma1(x)
  {
    hide S, Rotr;
    S(x, 6) ^ S(x, 11) ^ S(x, 25)
  }

  function Gamma0Macro(x: Word): (r: Word)
    ensures r == SmallSigma0(x)
  {
    hide S, R, Rotr, Shr;
    S(x, 7) ^ S(x, 18) ^ R(x, 3)
  }

  function Gamma1Macro(x: Word): (r: Word)
    ensures r == SmallSigma1(x)
  {
    hide S, R, Rotr, Shr;
    S(x, 17) ^ S(x, 19) ^ R(x, 10)
  }

  /** LOAD32H. */
  function Load32H(y0: Byte, y1: Byte, y2: Byte, y3: Byte): (x: Word)
    ensures x == ToWord(y0, y1, y2, y3)
  {
    LoadBits(y0, y1, y2, y3);
    (((((y0 & 255) as bv64) << 24) | (((y1 & 255) as bv64) << 16)
      | (((y2 & 255) as bv64) << 8) | ((y3 & 255) as bv64)) & 0xFFFFFFFF) as bv32
  }

  lemma LoadBits(y0: bv8, y1: bv8, y2: bv8, y3: bv8)
    ensures (((((y0 & 255) as bv64) << 24) | (((y1 & 255) as bv64) << 16)
              | (((y2 & 255) as bv64) << 8) | ((y3 & 255) as bv64)) & 0xFFFFFFFF) as bv32
         == (y0 as bv32 << 24) | (y1 as bv32 << 16) | (y2 as bv32 << 8) | y3 as bv32
  {
  }
}
