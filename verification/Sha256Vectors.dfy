/** The two messages of the self-test of sprdsha256.c, which are the examples of FIPS 180, from
    the first word of the schedule to the digest. */
module Sha256Vectors {
  import opened Fips180
  import Sha256
  import opened Sha256Compress

  // ------------------------------------------------------------------ eight at a time

  function FourRounds(v: seq<Word>, k: seq<Word>, w: seq<Word>, i: nat): (v': seq<Word>)
    requires |v| == |k| == |w| == 8 && i <= 4
    ensures |v'| == 8
  {
    Round(Round(Round(Round(v, k[i], w[i]), k[i + 1], w[i + 1]), k[i + 2], w[i + 2]), k[i + 3], w[i + 3])
  }

  function EightRounds(v: seq<Word>, k: seq<Word>, w: seq<Word>): (v': seq<Word>)
    requires |v| == |k| == |w| == 8
    ensures |v'| == 8
  {
    FourRounds(FourRounds(v, k, w, 0), k, w, 4)
  }

  function NextWord(w2: Word, w7: Word, w15: Word, w16: Word): Word {
    Plus(Plus(Plus(SmallSigma1(w2), w7), SmallSigma0(w15)), w16)
  }

  /** The eight words of a schedule behind the sixteen of a and b. */
  function NextRow(a: seq<Word>, b: seq<Word>): (c: seq<Word>)
    requires |a| == |b| == 8
    ensures |c| == 8
  {
    var w0, w1 := NextWord(b[6], b[1], a[1], a[0]), NextWord(b[7], b[2], a[2], a[1]);
    var w2, w3 := NextWord(w0, b[3], a[3], a[2]), NextWord(w1, b[4], a[4], a[3]);
    var w4, w5 := NextWord(w2, b[5], a[5], a[4]), NextWord(w3, b[6], a[6], a[5]);
    var w6, w7 := NextWord(w4, b[7], a[7], a[6]), NextWord(w5, w0, b[0], a[7]);
    [w0, w1, w2, w3, w4, w5, w6, w7]
  }

  /** Words n to n + 7 of the schedule. */
  function Row(block: seq<Byte>, n: nat): (w: seq<Word>)
    requires |block| == 64
    ensures |w| == 8
  {
    [Schedule(block, n), Schedule(block, n + 1), Schedule(block, n + 2), Schedule(block, n + 3),
     Schedule(block, n + 4), Schedule(block, n + 5), Schedule(block, n + 6), Schedule(block, n + 7)]
  }

  lemma WordFollows(block: seq<Byte>, n: nat)
    requires |block| == 64
    ensures Schedule(block, n + 16)
         == NextWord(Schedule(block, n + 14), Schedule(block, n + 9), Schedule(block, n + 1), Schedule(block, n))
  {
    hide Plus, SmallSigma0, SmallSigma1, Schedule, ToWord;
    ScheduleIs(block, n + 16);
  }

  lemma RowFollows(block: seq<Byte>, n: nat)
    requires |block| == 64
    ensures Row(block, n + 16) == NextRow(Row(block, n), Row(block, n + 8))
  {
    hide NextWord, Schedule;
    WordFollows(block, n);
    WordFollows(block, n + 1);
    WordFollows(block, n + 2);
    WordFollows(block, n + 3);
    WordFollows(block, n + 4);
    WordFollows(block, n + 5);
    WordFollows(block, n + 6);
    WordFollows(block, n + 7);
  }

  lemma FourMore(h: seq<Word>, block: seq<Byte>, r: nat, i: nat)
    requires |h| == 8 && |block| == 64 && r < 8 && (i == 0 || i == 4)
    ensures Rounds(h, block, 8 * r + i + 4) == FourRounds(Rounds(h, block, 8 * r + i), KRow(r), Row(block, 8 * r), i)
  {
    hide Round, K, KRow, Schedule, Rounds;
    var n := 8 * r;
    RowConstants(n, KRow(r));
    RoundsStep(h, block, n + i);
    RoundsStep(h, block, n + i + 1);
    RoundsStep(h, block, n + i + 2);
    RoundsStep(h, block, n + i + 3);
  }

  lemma EightMore(h: seq<Word>, block: seq<Byte>, r: nat)
    requires |h| == 8 && |block| == 64 && r < 8
    ensures Rounds(h, block, 8 * r + 8) == EightRounds(Rounds(h, block, 8 * r), KRow(r), Row(block, 8 * r))
  {
    hide FourRounds, KRow, Row, Rounds;
    FourMore(h, block, r, 0);
    FourMore(h, block, r, 4);
  }

  lemma RowNext(block: seq<Byte>, n: nat, a: seq<Word>, b: seq<Word>, c: seq<Word>)
    requires |block| == 64 && Row(block, n) == a && Row(block, n + 8) == b && NextRow(a, b) == c
    ensures Row(block, n + 16) == c
  {
    hide Row, NextRow;
    RowFollows(block, n);
  }

  lemma StateNext(h: seq<Word>, block: seq<Byte>, r: nat, v: seq<Word>, w: seq<Word>, v': seq<Word>)
    requires |h| == 8 && |block| == 64 && r < 8 && Rounds(h, block, 8 * r) == v && Row(block, 8 * r) == w
    requires EightRounds(v, KRow(r), w) == v'
    ensures Rounds(h, block, 8 * r + 8) == v'
  {
    hide Row, EightRounds, Rounds, KRow;
    EightMore(h, block, r);
  }

  // ------------------------------------------------------------------ "abc"

  const AbcBlock: seq<Byte> := [0x61, 0x62, 0x63, 0x80] + Zeros(59) + [0x18]

  /** Eight words of its schedule. */
  function AbcWords(r: nat): (w: seq<Word>)
    ensures |w| == 8
  {
    if r == 0 then [0x61626380, 0x00000000, 0x00000000, 0x00000000, 0x00000000, 0x00000000, 0x00000000, 0x00000000]
    else if r == 1 then [0x00000000, 0x00000000, 0x00000000, 0x00000000, 0x00000000, 0x00000000, 0x00000000, 0x00000018]
    else if r == 2 then [0x61626380, 0x000f0000, 0x7da86405, 0x600003c6, 0x3e9d7b78, 0x0183fc00, 0x12dcbfdb, 0xe2e2c38e]
    else if r == 3 then [0xc8215c1a, 0xb73679a2, 0xe5bc3909, 0x32663c5b, 0x9d209d67, 0xec8726cb, 0x702138a4, 0xd3b7973b]
    else if r == 4 then [0x93f5997f, 0x3b68ba73, 0xaff4ffc1, 0xf10a5c62, 0x0a8b3996, 0x72af830a, 0x9409e33e, 0x24641522]
    else if r == 5 then [0x9f47bf94, 0xf0a64f5a, 0x3e246a79, 0x27333ba3, 0x0c4763f2, 0x840abf27, 0x7a290d5d, 0x065c43da]
    else if r == 6 then [0xfb3e89cb, 0xcc7617db, 0xb9e66c34, 0xa9993667, 0x84badedd, 0xc21462bc, 0x1487472c, 0xb20f7a99]
    else [0xef57b9cd, 0xebe6b238, 0x9fe3095e, 0x78bc8d4b, 0xa43fcf15, 0x668b2ff8, 0xeeaba2cc, 0x12b1edeb]
  }

  /** The working variables after 8 r rounds. */
  function AbcState(r: nat): (w: seq<Word>)
    ensures |w| == 8
  {
    if r == 0 then [0x6a09e667, 0xbb67ae85, 0x3c6ef372, 0xa54ff53a, 0x510e527f, 0x9b05688c, 0x1f83d9ab, 0x5be0cd19]
    else if r == 1 then [0x85a07b5f, 0xe5030380, 0x2b4209f5, 0x04409a6a, 0x0c657a79, 0x9b27a401, 0x714260ad, 0x43ada245]
    else if r == 2 then [0xb0fa238e, 0xc0645fde, 0xd932eb16, 0x87912990, 0x07590dcd, 0x0b92f20c, 0x745a48de, 0x1e578218]
    else if r == 3 then [0xc5d53d8d, 0xa7a3623f, 0xc2606d6d, 0x9dc68b63, 0xaa47c347, 0x49f5114a, 0xe1257970, 0x8ada8930]
    else if r == 4 then [0x73b33bf5, 0xea992a22, 0xa0060b30, 0x363482c9, 0xba591112, 0x0109ab3a, 0xade79437, 0x6112a3b7]
    else if r == 5 then [0x79ea687a, 0x6dc57a8a, 0x34df1604, 0x41a65cb1, 0x1efbc0a0, 0xf0781bc8, 0xa507a53d, 0x0772a26b]
    else if r == 6 then [0x4172328d, 0xa14c14b0, 0x72ab4b91, 0x26628815, 0xfecf0bc6, 0xd57b94a9, 0xb7755da1, 0xa80f11f0]
    else if r == 7 then [0x38cc9913, 0x3ec45cdb, 0xf5702fdb, 0x101fd28f, 0x54cb266b, 0xe50e1b4f, 0x9f4787c3, 0x529e7d00]
    else [0x506e3058, 0xd39a2165, 0x04d24d6c, 0xb85e2ce9, 0x5ef50f24, 0xfb121210, 0x948d25b6, 0x961f4894]
  }

  lemma AbcWords2()
    ensures NextRow(AbcWords(0), AbcWords(1)) == AbcWords(2)
  {
  }

  lemma AbcWords3()
    ensures NextRow(AbcWords(1), AbcWords(2)) == AbcWords(3)
  {
  }

  lemma AbcWords4()
    ensures NextRow(AbcWords(2), AbcWords(3)) == AbcWords(4)
  {
  }

  lemma AbcWords5()
    ensures NextRow(AbcWords(3), AbcWords(4)) == AbcWords(5)
  {
  }

  lemma AbcWords6()
    ensures NextRow(AbcWords(4), AbcWords(5)) == AbcWords(6)
  {
  }

  lemma AbcWords7()
    ensures NextRow(AbcWords(5), AbcWords(6)) == AbcWords(7)
  {
  }

  lemma AbcState1()
    ensures EightRounds(AbcState(0), KRow(0), AbcWords(0)) == AbcState(1)
  {
  }

  lemma AbcState2()
    ensures EightRounds(AbcState(1), KRow(1), AbcWords(1)) == AbcState(2)
  {
  }

  lemma AbcState3()
    ensures EightRounds(AbcState(2), KRow(2), AbcWords(2)) == AbcState(3)
  {
  }

  lemma AbcState4()
    ensures EightRounds(AbcState(3), KRow(3), AbcWords(3)) == AbcState(4)
  {
  }

  lemma AbcState5()
    ensures EightRounds(AbcState(4), KRow(4), AbcWords(4)) == AbcState(5)
  {
  }

  lemma AbcState6()
    ensures EightRounds(AbcState(5), KRow(5), AbcWords(5)) == AbcState(6)
  {
  }

  lemma AbcState7()
    ensures EightRounds(AbcState(6), KRow(6), AbcWords(6)) == AbcState(7)
  {
  }

  lemma AbcState8()
    ensures EightRounds(AbcState(7), KRow(7), AbcWords(7)) == AbcState(8)
  {
  }

  lemma AbcSchedule()
    ensures forall r :: 0 <= r < 8 ==> Row(AbcBlock, 8 * r) == AbcWords(r)
  {
    hide AbcWords, NextRow, Row;
    AbcFirstWords();
    AbcWords2();
    RowNext(AbcBlock, 0, AbcWords(0), AbcWords(1), AbcWords(2));
    AbcWords3();
    RowNext(AbcBlock, 8, AbcWords(1), AbcWords(2), AbcWords(3));
    AbcWords4();
    RowNext(AbcBlock, 16, AbcWords(2), AbcWords(3), AbcWords(4));
    AbcWords5();
    RowNext(AbcBlock, 24, AbcWords(3), AbcWords(4), AbcWords(5));
    AbcWords6();
    RowNext(AbcBlock, 32, AbcWords(4), AbcWords(5), AbcWords(6));
    AbcWords7();
    RowNext(AbcBlock, 40, AbcWords(5), AbcWords(6), AbcWords(7));
  }

  lemma AbcFirstWords()
    ensures Row(AbcBlock, 0) == AbcWords(0) && Row(AbcBlock, 8) == AbcWords(1)
  {
    hide Schedule, ToWord;
    AbcAt();
    AbcWordBytes();
    forall t: nat | t < 16
      ensures Schedule(AbcBlock, t) == if t == 0 then 0x61626380 else if t == 15 then 0x18 else 0
    {
      ScheduleIs(AbcBlock, t);
      hide AbcBlock;
    }
    hide AbcBlock;
  }

  lemma AbcAt()
    ensures |AbcBlock| == 64 && forall i :: 4 <= i < 63 ==> AbcBlock[i] == 0
    ensures AbcBlock[0] == 0x61 && AbcBlock[1] == 0x62 && AbcBlock[2] == 0x63 && AbcBlock[3] == 0x80
    ensures AbcBlock[63] == 0x18
  {
  }

  lemma AbcWordBytes()
    ensures ToWord(0x61, 0x62, 0x63, 0x80) == 0x61626380 && ToWord(0, 0, 0, 0) == 0 && ToWord(0, 0, 0, 0x18) == 0x18
  {
  }

  lemma AbcRounds()
    ensures Rounds(InitialHash, AbcBlock, 64) == AbcState(8)
  {
    hide AbcWords, AbcState, EightRounds, Row, Rounds, KRow, InitialHash, AbcBlock;
    AbcSchedule();
    AbcStart();
    var h := InitialHash;
    AbcState1();
    StateNext(h, AbcBlock, 0, AbcState(0), AbcWords(0), AbcState(1));
    AbcState2();
    StateNext(h, AbcBlock, 1, AbcState(1), AbcWords(1), AbcState(2));
    AbcState3();
    StateNext(h, AbcBlock, 2, AbcState(2), AbcWords(2), AbcState(3));
    AbcState4();
    StateNext(h, AbcBlock, 3, AbcState(3), AbcWords(3), AbcState(4));
    AbcState5();
    StateNext(h, AbcBlock, 4, AbcState(4), AbcWords(4), AbcState(5));
    AbcState6();
    StateNext(h, AbcBlock, 5, AbcState(5), AbcWords(5), AbcState(6));
    AbcState7();
    StateNext(h, AbcBlock, 6, AbcState(6), AbcWords(6), AbcState(7));
    AbcState8();
    StateNext(h, AbcBlock, 7, AbcState(7), AbcWords(7), AbcState(8));
  }

  lemma AbcStart()
    ensures |InitialHash| == 8 && |AbcBlock| == 64 && Rounds(InitialHash, AbcBlock, 0) == AbcState(0)
  {
  }

  const AbcHash: seq<Word> := [
    0xba7816bf, 0x8f01cfea, 0x414140de, 0x5dae2223, 0xb00361a3, 0x96177a9c, 0xb410ff61, 0xf20015ad]

  lemma AbcCompressed()
    ensures Compress(InitialHash, AbcBlock) == AbcHash
  {
    hide Rounds, AbcBlock;
    AbcRounds();
  }

  lemma AbcPadded()
    ensures Pad([0x61, 0x62, 0x63]) == AbcBlock
  {
    hide BigEndian;
    assert PadLength(3) == 52;
    AbcLength();
    assert Zeros(52) + Zeros(7) == Zeros(59);
    assert [0x61, 0x62, 0x63] + [0x80] + Zeros(52) + (Zeros(7) + [0x18])
        == [0x61, 0x62, 0x63, 0x80] + (Zeros(52) + Zeros(7)) + [0x18];
  }

  lemma AbcLength()
    ensures BigEndian(24, 8) == Zeros(7) + [0x18]
  {
    ZeroBytes(7);
  }

  lemma {:induction false} ZeroBytes(n: nat)
    ensures BigEndian(0, n) == Zeros(n)
  {
    if n > 0 {
      ZeroBytes(n - 1);
    }
  }

  lemma AbcHashed()
    ensures HashBlocks(Pad([0x61, 0x62, 0x63])) == AbcHash
  {
    assert HashBlocks([]) == InitialHash;
    hide Pad, Compress, HashBlocks, InitialHash, AbcHash;
    AbcPadded();
    AbcCompressed();
    AbcAt();
    hide AbcBlock;
    Sha256.LastBlock([], AbcBlock);
    assert [] + AbcBlock == AbcBlock;
  }

  /** The digest of "abc". */
  lemma Abc()
    ensures Fips180.Sha256([0x61, 0x62, 0x63]) == [
      0xba, 0x78, 0x16, 0xbf, 0x8f, 0x01, 0xcf, 0xea, 0x41, 0x41, 0x40, 0xde, 0x5d, 0xae, 0x22, 0x23,
      0xb0, 0x03, 0x61, 0xa3, 0x96, 0x17, 0x7a, 0x9c, 0xb4, 0x10, 0xff, 0x61, 0xf2, 0x00, 0x15, 0xad]
  {
    AbcHashed();
    AbcBytes();
    hide Pad, HashBlocks, WordsToBytes, AbcHash;
  }

  /** The first test of sha256_test. */
  method TestAbc() returns (digest: seq<Byte>)
    ensures digest == [
      0xba, 0x78, 0x16, 0xbf, 0x8f, 0x01, 0xcf, 0xea, 0x41, 0x41, 0x40, 0xde, 0x5d, 0xae, 0x22, 0x23,
      0xb0, 0x03, 0x61, 0xa3, 0x96, 0x17, 0x7a, 0x9c, 0xb4, 0x10, 0xff, 0x61, 0xf2, 0x00, 0x15, 0xad]
  {
    hide Fips180.Sha256;
    Abc();
    var msg := new Byte[3] [0x61, 0x62, 0x63];
    ghost var pieces := [[0x61, 0x62, 0x63]];
    assert msg[..] == pieces[0];
    assert pieces[..0] == [] && [] + pieces[0] == pieces[0];
    digest := Sha256.HashInPieces([msg], pieces);
  }

  lemma BytesOfPart(h: seq<Word>, k: nat)
    requires k < |h|
    ensures WordsToBytes(h[..k + 1]) == if k == 0 then ToBytes(h[0]) else WordsToBytes(h[..k]) + ToBytes(h[k])
    ensures k + 1 == |h| ==> h[..k + 1] == h
  {
    assert h[..k + 1][..k] == h[..k];
    if k == 0 {
      assert WordsToBytes(h[..0]) == [];
    }
  }

  lemma BytesOfFour(h: seq<Word>)
    requires |h| == 4
    ensures WordsToBytes(h) == ToBytes(h[0]) + ToBytes(h[1]) + ToBytes(h[2]) + ToBytes(h[3])
  {
    hide ToBytes, WordsToBytes;
    BytesOfPart(h, 0);
    BytesOfPart(h, 1);
    BytesOfPart(h, 2);
    BytesOfPart(h, 3);
  }

  lemma {:induction false} BytesOfBoth(g: seq<Word>, h: seq<Word>)
    ensures WordsToBytes(g + h) == WordsToBytes(g) + WordsToBytes(h)
  {
    hide ToBytes;
    if h == [] {
      assert g + h == g;
    } else {
      assert (g + h)[..|g + h| - 1] == g + h[..|h| - 1];
      BytesOfBoth(g, h[..|h| - 1]);
    }
  }

  lemma AbcBytes()
    ensures WordsToBytes(AbcHash) == [
      0xba, 0x78, 0x16, 0xbf, 0x8f, 0x01, 0xcf, 0xea, 0x41, 0x41, 0x40, 0xde, 0x5d, 0xae, 0x22, 0x23,
      0xb0, 0x03, 0x61, 0xa3, 0x96, 0x17, 0x7a, 0x9c, 0xb4, 0x10, 0xff, 0x61, 0xf2, 0x00, 0x15, 0xad]
  {
    hide ToBytes, WordsToBytes;
    var g, h := AbcHash[..4], AbcHash[4..];
    BytesOfBoth(g, h);
    assert g + h == AbcHash;
    AbcFirstBytes(g);
    AbcLastBytes(h);
  }

  lemma AbcFirstBytes(g: seq<Word>)
    requires g == [0xba7816bf, 0x8f01cfea, 0x414140de, 0x5dae2223]
    ensures WordsToBytes(g) == [
      0xba, 0x78, 0x16, 0xbf, 0x8f, 0x01, 0xcf, 0xea, 0x41, 0x41, 0x40, 0xde, 0x5d, 0xae, 0x22, 0x23]
  {
    hide ToBytes, WordsToBytes;
    BytesOfFour(g);
    AbcWordsInBytes();
  }

  lemma AbcLastBytes(h: seq<Word>)
    requires h == [0xb00361a3, 0x96177a9c, 0xb410ff61, 0xf20015ad]
    ensures WordsToBytes(h) == [
      0xb0, 0x03, 0x61, 0xa3, 0x96, 0x17, 0x7a, 0x9c, 0xb4, 0x10, 0xff, 0x61, 0xf2, 0x00, 0x15, 0xad]
  {
    hide ToBytes, WordsToBytes;
    BytesOfFour(h);
    AbcWordsInBytes();
  }

  lemma AbcWordsInBytes()
    ensures ToBytes(0xba7816bf) == [0xba, 0x78, 0x16, 0xbf] && ToBytes(0x8f01cfea) == [0x8f, 0x01, 0xcf, 0xea]
    ensures ToBytes(0x414140de) == [0x41, 0x41, 0x40, 0xde] && ToBytes(0x5dae2223) == [0x5d, 0xae, 0x22, 0x23]
    ensures ToBytes(0xb00361a3) == [0xb0, 0x03, 0x61, 0xa3] && ToBytes(0x96177a9c) == [0x96, 0x17, 0x7a, 0x9c]
    ensures ToBytes(0xb410ff61) == [0xb4, 0x10, 0xff, 0x61] && ToBytes(0xf20015ad) == [0xf2, 0x00, 0x15, 0xad]
  {
  }
}
