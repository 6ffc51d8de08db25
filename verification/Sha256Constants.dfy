/** The constants of SHA-256 and the functions on words, by what FIPS 180-4 says they are. */
module Sha256Constants {
  import opened Fips180
  import opened Sha256Compress

  // ------------------------------------------------------------------ the constants

  /** h holds the first 32 bits of the fractional part of the square root of p, a the whole part. */
  ghost predicate SquareRoot(p: nat, a: nat, h: Word) {
    var r := a * 0x1_0000_0000 + h as nat;
    r * r <= p * 0x1_0000_0000_0000_0000 < (r + 1) * (r + 1)
  }

  /** The same for the cube root. */
  ghost predicate CubeRoot(p: nat, a: nat, k: Word) {
    var r := a * 0x1_0000_0000 + k as nat;
    r * r * r <= p * 0x1_0000_0000_0000_0000_0000_0000 < (r + 1) * (r + 1) * (r + 1)
  }

  lemma IsSquareRoot(p: nat, a: nat, h: Word)
    requires var r := a * 0x1_0000_0000 + h as nat;
             r * r <= p * 0x1_0000_0000_0000_0000 < (r + 1) * (r + 1)
    ensures SquareRoot(p, a, h)
  {
  }

  lemma IsCubeRoot(p: nat, a: nat, k: Word)
    requires var r := a * 0x1_0000_0000 + k as nat;
             r * r * r <= p * 0x1_0000_0000_0000_0000_0000_0000 < (r + 1) * (r + 1) * (r + 1)
    ensures CubeRoot(p, a, k)
  {
  }

  /** Section 5.3.3: the first eight primes. */
  lemma InitialHashRoots()
    ensures |InitialHash| == 8
    ensures SquareRoot(2, 1, InitialHash[0]) && SquareRoot(3, 1, InitialHash[1])
    ensures SquareRoot(5, 2, InitialHash[2]) && SquareRoot(7, 2, InitialHash[3])
    ensures SquareRoot(11, 3, InitialHash[4]) && SquareRoot(13, 3, InitialHash[5])
    ensures SquareRoot(17, 4, InitialHash[6]) && SquareRoot(19, 4, InitialHash[7])
  {
    hide SquareRoot;
    IsSquareRoot(2, 1, 0x6a09e667);
    IsSquareRoot(3, 1, 0xbb67ae85);
    IsSquareRoot(5, 2, 0x3c6ef372);
    IsSquareRoot(7, 2, 0xa54ff53a);
    IsSquareRoot(11, 3, 0x510e527f);
    IsSquareRoot(13, 3, 0x9b05688c);
    IsSquareRoot(17, 4, 0x1f83d9ab);
    IsSquareRoot(19, 4, 0x5be0cd19);
  }

  /** Section 4.2.2: the first 64 primes. */
  lemma KRoots0()
    ensures CubeRoot(2, 1, K(0)) && CubeRoot(3, 1, K(1))
    ensures CubeRoot(5, 1, K(2)) && CubeRoot(7, 1, K(3))
    ensures CubeRoot(11, 2, K(4)) && CubeRoot(13, 2, K(5))
    ensures CubeRoot(17, 2, K(6)) && CubeRoot(19, 2, K(7))
  {
    hide CubeRoot;
    RowConstants(0, [
      0x428a2f98, 0x71374491, 0xb5c0fbcf, 0xe9b5dba5, 0x3956c25b, 0x59f111f1, 0x923f82a4, 0xab1c5ed5]);
    hide K, KRow;
    IsCubeRoot(2, 1, 0x428a2f98);
    IsCubeRoot(3, 1, 0x71374491);
    IsCubeRoot(5, 1, 0xb5c0fbcf);
    IsCubeRoot(7, 1, 0xe9b5dba5);
    IsCubeRoot(11, 2, 0x3956c25b);
    IsCubeRoot(13, 2, 0x59f111f1);
    IsCubeRoot(17, 2, 0x923f82a4);
    IsCubeRoot(19, 2, 0xab1c5ed5);
  }

  lemma KRoots1()
    ensures CubeRoot(23, 2, K(8)) && CubeRoot(29, 3, K(9))
    ensures CubeRoot(31, 3, K(10)) && CubeRoot(37, 3, K(11))
    ensures CubeRoot(41, 3, K(12)) && CubeRoot(43, 3, K(13))
    ensures CubeRoot(47, 3, K(14)) && CubeRoot(53, 3, K(15))
  {
    hide CubeRoot;
    RowConstants(8, [
      0xd807aa98, 0x12835b01, 0x243185be, 0x550c7dc3, 0x72be5d74, 0x80deb1fe, 0x9bdc06a7, 0xc19bf174]);
    hide K, KRow;
    IsCubeRoot(23, 2, 0xd807aa98);
    IsCubeRoot(29, 3, 0x12835b01);
    IsCubeRoot(31, 3, 0x243185be);
    IsCubeRoot(37, 3, 0x550c7dc3);
    IsCubeRoot(41, 3, 0x72be5d74);
    IsCubeRoot(43, 3, 0x80deb1fe);
    IsCubeRoot(47, 3, 0x9bdc06a7);
    IsCubeRoot(53, 3, 0xc19bf174);
  }

  lemma KRoots2()
    ensures CubeRoot(59, 3, K(16)) && CubeRoot(61, 3, K(17))
    ensures CubeRoot(67, 4, K(18)) && CubeRoot(71, 4, K(19))
    ensures CubeRoot(73, 4, K(20)) && CubeRoot(79, 4, K(21))
    ensures CubeRoot(83, 4, K(22)) && CubeRoot(89, 4, K(23))
  {
    hide CubeRoot;
    RowConstants(16, [
      0xe49b69c1, 0xefbe4786, 0x0fc19dc6, 0x240ca1cc, 0x2de92c6f, 0x4a7484aa, 0x5cb0a9dc, 0x76f988da]);
    hide K, KRow;
    IsCubeRoot(59, 3, 0xe49b69c1);
    IsCubeRoot(61, 3, 0xefbe4786);
    IsCubeRoot(67, 4, 0x0fc19dc6);
    IsCubeRoot(71, 4, 0x240ca1cc);
    IsCubeRoot(73, 4, 0x2de92c6f);
    IsCubeRoot(79, 4, 0x4a7484aa);
    IsCubeRoot(83, 4, 0x5cb0a9dc);
    IsCubeRoot(89, 4, 0x76f988da);
  }

  lemma KRoots3()
    ensures CubeRoot(97, 4, K(24)) && CubeRoot(101, 4, K(25))
    ensures CubeRoot(103, 4, K(26)) && CubeRoot(107, 4, K(27))
    ensures CubeRoot(109, 4, K(28)) && CubeRoot(113, 4, K(29))
    ensures CubeRoot(127, 5, K(30)) && CubeRoot(131, 5, K(31))
  {
    hide CubeRoot;
    RowConstants(24, [
      0x983e5152, 0xa831c66d, 0xb00327c8, 0xbf597fc7, 0xc6e00bf3, 0xd5a79147, 0x06ca6351, 0x14292967]);
    hide K, KRow;
    IsCubeRoot(97, 4, 0x983e5152);
    IsCubeRoot(101, 4, 0xa831c66d);
    IsCubeRoot(103, 4, 0xb00327c8);
    IsCubeRoot(107, 4, 0xbf597fc7);
    IsCubeRoot(109, 4, 0xc6e00bf3);
    IsCubeRoot(113, 4, 0xd5a79147);
    IsCubeRoot(127, 5, 0x06ca6351);
    IsCubeRoot(131, 5, 0x14292967);
  }

  lemma KRoots4()
    ensures CubeRoot(137, 5, K(32)) && CubeRoot(139, 5, K(33))
    ensures CubeRoot(149, 5, K(34)) && CubeRoot(151, 5, K(35))
    ensures CubeRoot(157, 5, K(36)) && CubeRoot(163, 5, K(37))
    ensures CubeRoot(167, 5, K(38)) && CubeRoot(173, 5, K(39))
  {
    hide CubeRoot;
    RowConstants(32, [
      0x27b70a85, 0x2e1b2138, 0x4d2c6dfc, 0x53380d13, 0x650a7354, 0x766a0abb, 0x81c2c92e, 0x92722c85]);
    hide K, KRow;
    IsCubeRoot(137, 5, 0x27b70a85);
    IsCubeRoot(139, 5, 0x2e1b2138);
    IsCubeRoot(149, 5, 0x4d2c6dfc);
    IsCubeRoot(151, 5, 0x53380d13);
    IsCubeRoot(157, 5, 0x650a7354);
    IsCubeRoot(163, 5, 0x766a0abb);
    IsCubeRoot(167, 5, 0x81c2c92e);
    IsCubeRoot(173, 5, 0x92722c85);
  }

  lemma KRoots5()
    ensures CubeRoot(179, 5, K(40)) && CubeRoot(181, 5, K(41))
    ensures CubeRoot(191, 5, K(42)) && CubeRoot(193, 5, K(43))
    ensures CubeRoot(197, 5, K(44)) && CubeRoot(199, 5, K(45))
    ensures CubeRoot(211, 5, K(46)) && CubeRoot(223, 6, K(47))
  {
    hide CubeRoot;
    RowConstants(40, [
      0xa2bfe8a1, 0xa81a664b, 0xc24b8b70, 0xc76c51a3, 0xd192e819, 0xd6990624, 0xf40e3585, 0x106aa070]);
    hide K, KRow;
    IsCubeRoot(179, 5, 0xa2bfe8a1);
    IsCubeRoot(181, 5, 0xa81a664b);
    IsCubeRoot(191, 5, 0xc24b8b70);
    IsCubeRoot(193, 5, 0xc76c51a3);
    IsCubeRoot(197, 5, 0xd192e819);
    IsCubeRoot(199, 5, 0xd6990624);
    IsCubeRoot(211, 5, 0xf40e3585);
    IsCubeRoot(223, 6, 0x106aa070);
  }

  lemma KRoots6()
    ensures CubeRoot(227, 6, K(48)) && CubeRoot(229, 6, K(49))
    ensures CubeRoot(233, 6, K(50)) && CubeRoot(239, 6, K(51))
    ensures CubeRoot(241, 6, K(52)) && CubeRoot(251, 6, K(53))
    ensures CubeRoot(257, 6, K(54)) && CubeRoot(263, 6, K(55))
  {
    hide CubeRoot;
    RowConstants(48, [
      0x19a4c116, 0x1e376c08, 0x2748774c, 0x34b0bcb5, 0x391c0cb3, 0x4ed8aa4a, 0x5b9cca4f, 0x682e6ff3]);
    hide K, KRow;
    IsCubeRoot(227, 6, 0x19a4c116);
    IsCubeRoot(229, 6, 0x1e376c08);
    IsCubeRoot(233, 6, 0x2748774c);
    IsCubeRoot(239, 6, 0x34b0bcb5);
    IsCubeRoot(241, 6, 0x391c0cb3);
    IsCubeRoot(251, 6, 0x4ed8aa4a);
    IsCubeRoot(257, 6, 0x5b9cca4f);
    IsCubeRoot(263, 6, 0x682e6ff3);
  }

  lemma KRoots7()
    ensures CubeRoot(269, 6, K(56)) && CubeRoot(271, 6, K(57))
    ensures CubeRoot(277, 6, K(58)) && CubeRoot(281, 6, K(59))
    ensures CubeRoot(283, 6, K(60)) && CubeRoot(293, 6, K(61))
    ensures CubeRoot(307, 6, K(62)) && CubeRoot(311, 6, K(63))
  {
    hide CubeRoot;
    RowConstants(56, [
      0x748f82ee, 0x78a5636f, 0x84c87814, 0x8cc70208, 0x90befffa, 0xa4506ceb, 0xbef9a3f7, 0xc67178f2]);
    hide K, KRow;
    IsCubeRoot(269, 6, 0x748f82ee);
    IsCubeRoot(271, 6, 0x78a5636f);
    IsCubeRoot(277, 6, 0x84c87814);
    IsCubeRoot(281, 6, 0x8cc70208);
    IsCubeRoot(283, 6, 0x90befffa);
    IsCubeRoot(293, 6, 0xa4506ceb);
    IsCubeRoot(307, 6, 0xbef9a3f7);
    IsCubeRoot(311, 6, 0xc67178f2);
  }

  // ------------------------------------------------------------------ the functions on words

  /** Rotr, for the amounts in use, is the rotation of bit vectors to the right. */
  lemma RotrRotates(x: Word)
    ensures Rotr(x, 2) == x.RotateRight(2) && Rotr(x, 6) == x.RotateRight(6)
    ensures Rotr(x, 7) == x.RotateRight(7) && Rotr(x, 11) == x.RotateRight(11)
    ensures Rotr(x, 13) == x.RotateRight(13) && Rotr(x, 17) == x.RotateRight(17)
    ensures Rotr(x, 18) == x.RotateRight(18) && Rotr(x, 19) == x.RotateRight(19)
    ensures Rotr(x, 22) == x.RotateRight(22) && Rotr(x, 25) == x.RotateRight(25)
  {
  }

  /** Bit i of Ch: that of x chooses between those of y and z. */
  lemma ChBit(x: Word, y: Word, z: Word, i: bv6)
    requires i < 32
    ensures Ch(x, y, z) & (1 << i) == if x & (1 << i) != 0 then y & (1 << i) else z & (1 << i)
  {
    ChosenBit(x, y, z, i);
  }

  lemma ChosenBit(x: bv32, y: bv32, z: bv32, i: bv6)
    requires i < 32
    ensures ((x & y) ^ (!x & z)) & (1 << i) == if x & (1 << i) != 0 then y & (1 << i) else z & (1 << i)
  {
  }

  /** Bit i of Maj: what at least two of them have. */
  lemma MajBit(x: Word, y: Word, z: Word, i: bv6)
    requires i < 32
    ensures Maj(x, y, z) & (1 << i) == if x & (1 << i) == y & (1 << i) then x & (1 << i) else z & (1 << i)
  {
    MajorBit(x, y, z, i);
  }

  lemma MajorBit(x: bv32, y: bv32, z: bv32, i: bv6)
    requires i < 32
    ensures ((x & y) ^ (x & z) ^ (y & z)) & (1 << i)
            == if x & (1 << i) == y & (1 << i) then x & (1 << i) else z & (1 << i)
  {
  }
}
