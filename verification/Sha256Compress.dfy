/** The compression function of sprdsha256.c: the unrolled rounds with rotated register
    names, and the shifting loop they replace.  Both compute the rounds of the standard. */
module Sha256Compress {
  import opened Fips180
  import opened Sha256Words

  lemma ScheduleIs(block: seq<Byte>, t: nat)
    requires |block| == 64
    ensures Schedule(block, t)
            == if t < 16 then ToWord(block[4 * t], block[4 * t + 1], block[4 * t + 2], block[4 * t + 3])
               else Plus(Plus(Plus(SmallSigma1(Schedule(block, t - 2)), Schedule(block, t - 7)),
                              SmallSigma0(Schedule(block, t - 15))), Schedule(block, t - 16))
  {
  }

  /** Lines 98-105: the schedule array. */
  method FillSchedule(w: array<Word>, src: array<Byte>, off: nat)
    requires w.Length == 64 && off + 64 <= src.Length
    modifies w
    ensures forall t :: 0 <= t < 64 ==> w[t] == Schedule(src[off..off + 64], t)
  {
    hide Plus, SmallSigma0, SmallSigma1, Gamma0Macro, Gamma1Macro, Load32H, ToWord, Schedule;
    ghost var block := src[off..off + 64];
    for i := 0 to 16
      invariant forall t :: 0 <= t < i ==> w[t] == Schedule(block, t)
    {
      ScheduleIs(block, i);
      w[i] := Load32H(src[off + 4 * i], src[off + 4 * i + 1], src[off + 4 * i + 2], src[off + 4 * i + 3]);
    }
    for i := 16 to 64
      invariant forall t :: 0 <= t < i ==> w[t] == Schedule(block, t)
    {
      ScheduleIs(block, i);
      w[i] := Plus(Plus(Plus(Gamma1Macro(w[i - 2]), w[i - 7]), Gamma0Macro(w[i - 15])), w[i - 16]);
    }
  }

  /** The working variables a..h while the register names are rotated r places. */
  ghost function Registers(s: seq<Word>, r: nat): (v: seq<Word>)
    requires |s| == 8 && r < 8
    ensures |v| == 8
  {
    [s[Name(0, r)], s[Name(1, r)], s[Name(2, r)], s[Name(3, r)], s[Name(4, r)], s[Name(5, r)], s[Name(6, r)],
        s[Name(7, r)]]
  }

  /** Where working variable j is kept after r rotations. */
  function Name(j: nat, r: nat): (i: nat)
    requires j < 8 && r < 8
    ensures i < 8
  {
    if r <= j then j - r else j + 8 - r
  }

  /** Storing x in d and y in h and renaming makes y the new a and x the new e. */
  lemma Rename(s: seq<Word>, r: nat, x: Word, y: Word)
    requires |s| == 8 && r < 8
    ensures var v := Registers(s, r);
            && Registers(s[Name(3, r) := x][Name(7, r) := y], if r == 7 then 0 else r + 1)
               == [y, v[0], v[1], v[2], x, v[4], v[5], v[6]]
  {
  }

  lemma RoundsStep(h: seq<Word>, block: seq<Byte>, i: nat)
    requires |h| == 8 && |block| == 64 && i < 64
    ensures Rounds(h, block, i + 1) == Round(Rounds(h, block, i), K(i), Schedule(block, i))
  {
  }

  /** The RND macro: t0 and t1 of lines 129-130, added into d and h. */
  method Rnd(s: array<Word>, w: array<Word>, a: nat, b: nat, c: nat, d: nat, e: nat, f: nat, g: nat, h: nat,
             i: nat, ki: Word, ghost r: nat, ghost hash: seq<Word>, ghost block: seq<Byte>)
    requires s.Length == 8 && w.Length == 64 && s != w && i < 64 && r < 8 && |hash| == 8 && |block| == 64
    requires a == Name(0, r) && b == Name(1, r) && c == Name(2, r) && d == Name(3, r)
    requires e == Name(4, r) && f == Name(5, r) && g == Name(6, r) && h == Name(7, r)
    requires ki == K(i) && w[i] == Schedule(block, i)
    requires Registers(s[..], r) == Rounds(hash, block, i)
    modifies s
    ensures Registers(s[..], if r == 7 then 0 else r + 1) == Rounds(hash, block, i + 1)
  {
    hide Plus, BigSigma0, BigSigma1, Ch, Maj, Sigma0Macro, Sigma1Macro, ChMacro, MajMacro, Rounds, K, Schedule;
    ghost var before := s[..];
    var t0 := Plus(Plus(Plus(Plus(s[h], Sigma1Macro(s[e])), ChMacro(s[e], s[f], s[g])), ki), w[i]);
    var t1 := Plus(Sigma0Macro(s[a]), MajMacro(s[a], s[b], s[c]));
    ghost var x := Plus(s[d], t0);
    s[d] := Plus(s[d], t0);
    s[h] := Plus(t0, t1);
    assert s[..] == before[d := x][h := Plus(t0, t1)];
    hide Name;
    Rename(before, r, x, Plus(t0, t1));
    RoundsStep(hash, block, i);
  }

  /** Eight rows bring the register names back to where they started. */
  method EightRows(s: array<Word>, w: array<Word>, i: nat, k0: Word, k1: Word, k2: Word, k3: Word,
                   k4: Word, k5: Word, k6: Word, k7: Word, ghost h: seq<Word>, ghost block: seq<Byte>)
    requires s.Length == 8 && w.Length == 64 && s != w && i + 8 <= 64 && |h| == 8 && |block| == 64
    requires forall t :: 0 <= t < 64 ==> w[t] == Schedule(block, t)
    requires KRow(i / 8) == [k0, k1, k2, k3, k4, k5, k6, k7] && i % 8 == 0
    requires s[..] == Rounds(h, block, i)
    modifies s
    ensures s[..] == Rounds(h, block, i + 8)
  {
    hide Round, Schedule, Rounds, Registers, K, KRow;
    RowConstants(i, [k0, k1, k2, k3, k4, k5, k6, k7]);
    NoRotation(s[..]);
    Rnd(s, w, 0, 1, 2, 3, 4, 5, 6, 7, i, k0, 0, h, block);
    Rnd(s, w, 7, 0, 1, 2, 3, 4, 5, 6, i + 1, k1, 1, h, block);
    Rnd(s, w, 6, 7, 0, 1, 2, 3, 4, 5, i + 2, k2, 2, h, block);
    Rnd(s, w, 5, 6, 7, 0, 1, 2, 3, 4, i + 3, k3, 3, h, block);
    Rnd(s, w, 4, 5, 6, 7, 0, 1, 2, 3, i + 4, k4, 4, h, block);
    Rnd(s, w, 3, 4, 5, 6, 7, 0, 1, 2, i + 5, k5, 5, h, block);
    Rnd(s, w, 2, 3, 4, 5, 6, 7, 0, 1, i + 6, k6, 6, h, block);
    Rnd(s, w, 1, 2, 3, 4, 5, 6, 7, 0, i + 7, k7, 7, h, block);
    NoRotation(s[..]);
  }

  lemma NoRotation(s: seq<Word>)
    requires |s| == 8
    ensures Registers(s, 0) == s
  {
  }

  lemma RowConstants(i: nat, k: seq<Word>)
    requires i + 8 <= 64 && KRow(i / 8) == k && i % 8 == 0
    ensures K(i) == k[0] && K(i + 1) == k[1] && K(i + 2) == k[2] && K(i + 3) == k[3]
    ensures K(i + 4) == k[4] && K(i + 5) == k[5] && K(i + 6) == k[6] && K(i + 7) == k[7]
  {
    hide KRow;
  }

  /** Lines 134-197: the unrolled form, eight rows at a time. */
  method Unrolled(s: array<Word>, w: array<Word>, ghost h: seq<Word>, ghost block: seq<Byte>)
    requires s.Length == 8 && w.Length == 64 && s != w && |block| == 64
    requires forall t :: 0 <= t < 64 ==> w[t] == Schedule(block, t)
    requires s[..] == h
    modifies s
    ensures s[..] == Rounds(h, block, 64)
  {
    hide Round, Schedule, K;
    assert Rounds(h, block, 0) == h;
    hide Rounds;
    EightRows(s, w, 0, 0x428a2f98, 0x71374491, 0xb5c0fbcf, 0xe9b5dba5, 0x3956c25b, 0x59f111f1, 0x923f82a4,
              0xab1c5ed5, h, block);
    EightRows(s, w, 8, 0xd807aa98, 0x12835b01, 0x243185be, 0x550c7dc3, 0x72be5d74, 0x80deb1fe, 0x9bdc06a7,
              0xc19bf174, h, block);
    EightRows(s, w, 16, 0xe49b69c1, 0xefbe4786, 0x0fc19dc6, 0x240ca1cc, 0x2de92c6f, 0x4a7484aa, 0x5cb0a9dc,
              0x76f988da, h, block);
    EightRows(s, w, 24, 0x983e5152, 0xa831c66d, 0xb00327c8, 0xbf597fc7, 0xc6e00bf3, 0xd5a79147, 0x06ca6351,
              0x14292967, h, block);
    EightRows(s, w, 32, 0x27b70a85, 0x2e1b2138, 0x4d2c6dfc, 0x53380d13, 0x650a7354, 0x766a0abb, 0x81c2c92e,
              0x92722c85, h, block);
    EightRows(s, w, 40, 0xa2bfe8a1, 0xa81a664b, 0xc24b8b70, 0xc76c51a3, 0xd192e819, 0xd6990624, 0xf40e3585,
              0x106aa070, h, block);
    EightRows(s, w, 48, 0x19a4c116, 0x1e376c08, 0x2748774c, 0x34b0bcb5, 0x391c0cb3, 0x4ed8aa4a, 0x5b9cca4f,
              0x682e6ff3, h, block);
    EightRows(s, w, 56, 0x748f82ee, 0x78a5636f, 0x84c87814, 0x8cc70208, 0x90befffa, 0xa4506ceb, 0xbef9a3f7,
              0xc67178f2, h, block);
  }

  /** Lines 115-126: the LTC_SMALL_CODE form, one row and a shift of the array. */
  method Shifting(s: array<Word>, w: array<Word>, ghost h: seq<Word>, ghost block: seq<Byte>)
    requires s.Length == 8 && w.Length == 64 && s != w && |block| == 64
    requires forall t :: 0 <= t < 64 ==> w[t] == Schedule(block, t)
    requires s[..] == h
    modifies s
    ensures s[..] == Rounds(h, block, 64)
  {
    hide Round, Schedule, K, Registers;
    for i := 0 to 64
      invariant s[..] == Rounds(h, block, i)
    {
      NoRotation(s[..]);
      Rnd(s, w, 0, 1, 2, 3, 4, 5, 6, 7, i, K(i), 0, h, block);
      ShiftDown(s);
    }
  }

  /** Lines 117-125. */
  method ShiftDown(s: array<Word>)
    requires s.Length == 8
    modifies s
    ensures s[..] == Registers(old(s[..]), 1)
  {
    var t := s[7];
    s[7] := s[6];
    s[6] := s[5];
    s[5] := s[4];
    s[4] := s[3];
    s[3] := s[2];
    s[2] := s[1];
    s[1] := s[0];
    s[0] := t;
  }
}
