/** The bits of an exponent in limbs, as RsaTrans of signimage/source/common/rsa/src/rsa.c
    reads them. */
module Exponent {
  import opened Limbs

  function Shr(x: nat, r: nat): nat {
    if r == 0 then x else Shr(x, r - 1) / 2
  }

  function Two(k: nat): (p: nat)
    ensures p > 0
  {
    if k == 0 then 1 else 2 * Two(k - 1)
  }

  lemma {:induction false} ShrBound(x: nat, r: nat, k: nat)
    requires x < Two(r + k)
    ensures Shr(x, r) < Two(k)
  {
    if r > 0 {
      ShrBound(x, r - 1, k + 1);
    }
  }

  function Bit(e: seq<Limb>, i: nat): (b: nat)
    requires i < 32 * |e|
    ensures b <= 1
  {
    Shr(e[i / 32], i % 32) % 2
  }

  /** The number that the bits from the i-th on make. */
  ghost function Hi(e: seq<Limb>, i: nat): nat
    requires i <= 32 * |e|
    decreases 32 * |e| - i
  {
    if i == 32 * |e| then 0 else 2 * Hi(e, i + 1) + Bit(e, i)
  }

  lemma {:induction false} HiLimb(e: seq<Limb>, j: nat, r: nat)
    requires j < |e| && r <= 32
    ensures Hi(e, 32 * j + r) == Shr(e[j], r) + Times(Two(32 - r), Hi(e, 32 * (j + 1)))
    decreases 32 - r
  {
    hide Times;
    if r == 32 {
      BaseIsTwo();
      ShrBound(e[j], 32, 0);
      TimesUnits(Hi(e, 32 * (j + 1)));
    } else {
      HiLimb(e, j, r + 1);
      var i := 32 * j + r;
      assert i / 32 == j && i % 32 == r;
      TimesTwo(Two(31 - r), Hi(e, 32 * (j + 1)));
    }
  }

  lemma TimesTwo(p: nat, h: nat)
    ensures Times(2 * p, h) == 2 * Times(p, h)
  {
  }

  lemma BaseIsTwo()
    ensures Two(32) == Base
  {
    assert Two(8) == 256;
    assert Two(16) == 65536;
    assert Two(24) == 65536 * 256;
  }

  lemma {:induction false} HiLimbs(e: seq<Limb>, j: nat)
    requires j <= |e|
    ensures Hi(e, 32 * j) == Val(e[j..])
    decreases |e| - j
  {
    hide Times, Val;
    if j == |e| {
      NothingLeft();
      assert e[j..] == [];
    } else {
      HiLimbs(e, j + 1);
      HiLimb(e, j, 0);
      BaseIsTwo();
      TimesBaseLeft(Hi(e, 32 * (j + 1)));
      HighNext(e, j);
    }
  }

  /** All bits make the value. */
  lemma AllBits(e: seq<Limb>)
    ensures Hi(e, 0) == Val(e)
  {
    HiLimbs(e, 0);
    assert e[0..] == e;
  }

  function Bits(x: nat): nat {
    if x == 0 then 0 else Bits(x / 2) + 1
  }

  /** Where the search for the highest bit ends: it looks at the highest limb only. */
  function BitCount(e: seq<Limb>): nat
    requires e != []
  {
    32 * (|e| - 1) + Bits(e[|e| - 1])
  }

  lemma {:induction false} BitsFit(x: nat, k: nat)
    requires x < Two(k)
    ensures Bits(x) <= k
  {
    if x > 0 {
      BitsFit(x / 2, k - 1);
    }
  }

  lemma BitCountFits(e: seq<Limb>)
    requires e != []
    ensures BitCount(e) <= 32 * |e|
  {
    BaseIsTwo();
    BitsFit(e[|e| - 1], 32);
  }

  /** The number that the bits make from the i-th on, where the highest counts as set. */
  ghost function Read(e: seq<Limb>, k: nat, i: nat): (r: nat)
    requires i < k <= 32 * |e|
    ensures r > 0
    decreases k - i
  {
    if i == k - 1 then 1 else 2 * Read(e, k, i + 1) + Bit(e, i)
  }

  /** Half of a limb's range. */
  const Half: nat := 0x8000_0000

  /** The exponent that is used. With a zero limb on top the highest bit of the limb below is
      taken for set. */
  ghost function Effective(e: seq<Limb>): nat
    requires e != []
  {
    if e[|e| - 1] != 0 then Val(e)
    else if |e| == 1 then 1
    else Val(Marked(e))
  }

  function Marked(e: seq<Limb>): (m: seq<Limb>)
    requires |e| > 1
    ensures |m| == |e| - 1
  {
    var l := e[|e| - 2];
    e[..|e| - 2] + [if l < Half then l + Half else l]
  }

  /** Exactly when that is the exponent that was given. */
  lemma EffectiveIsValue(e: seq<Limb>)
    requires e != []
    ensures Effective(e) == Val(e) <==> e[|e| - 1] != 0 || (|e| > 1 && e[|e| - 2] >= Half)
  {
    hide Val;
    if e[|e| - 1] == 0 {
      TopZero(e);
      var low := e[..|e| - 1];
      if |e| == 1 {
        NothingLeft();
      } else {
        assert low[..|low| - 1] == e[..|e| - 2];
        MarkedValue(low, e[|e| - 2]);
      }
    }
  }

  lemma MarkedValue(low: seq<Limb>, l: Limb)
    requires low != [] && l == low[|low| - 1]
    ensures var rest := low[..|low| - 1];
      Val(rest + [if l < Half then l + Half else l]) == Val(low) <==> l >= Half
  {
    var rest := low[..|low| - 1];
    assert low == rest + [l];
    if l < Half {
      ValAppend(rest, l);
      ValAppend(rest, l + Half);
      TimesAdds(l, Half, BasePow(|rest|));
      TopPositive(Half, BasePow(|rest|));
    }
    hide Val, Times;
  }

  /** Reading the bits gives that number. */
  lemma ReadIsEffective(e: seq<Limb>)
    requires e != []
    ensures BitCount(e) == 0 ==> Effective(e) == 1
    ensures 0 < BitCount(e) <= 32 * |e| ==> Read(e, BitCount(e), 0) == Effective(e)
  {
    hide Val;
    var k := BitCount(e);
    if e[|e| - 1] != 0 {
      HighestBit(e);
      ReadIsHi(e, k, 0);
      AllBits(e);
    } else if |e| > 1 {
      HighestBitMarked(e);
      ReadMarked(e, 0);
      ReadIsHi(Marked(e), k, 0);
      AllBits(Marked(e));
    }
  }

  lemma {:induction false} ReadIsHi(e: seq<Limb>, k: nat, i: nat)
    requires i < k <= 32 * |e| && Hi(e, k - 1) == 1
    ensures Read(e, k, i) == Hi(e, i)
    decreases k - i
  {
    if i < k - 1 {
      ReadIsHi(e, k, i + 1);
    }
  }

  lemma {:induction false} BitsShift(x: nat, r: nat)
    requires r < Bits(x)
    ensures Bits(Shr(x, r)) == Bits(x) - r
  {
    if r > 0 {
      BitsShift(x, r - 1);
    }
  }

  lemma HighestBit(e: seq<Limb>)
    requires e != [] && e[|e| - 1] != 0
    ensures 0 < BitCount(e) <= 32 * |e| && Hi(e, BitCount(e) - 1) == 1
  {
    BitCountFits(e);
    var top, c := e[|e| - 1], Bits(e[|e| - 1]) - 1;
    BitsShift(top, c);
    assert Bits(Shr(top, c) / 2) == 0;
    HiLimb(e, |e| - 1, c);
    TimesUnits(Two(32 - c));
  }

  lemma HighestBitMarked(e: seq<Limb>)
    requires |e| > 1 && e[|e| - 1] == 0
    ensures BitCount(e) == 32 * (|e| - 1) && Hi(Marked(e), BitCount(e) - 1) == 1
  {
    var m, l := Marked(e), e[|e| - 2];
    ShrMarked(l % Half, 31);
    ShrHigh(l % Half, 31);
    assert m[|e| - 2] == l % Half + Half;
    HiLimb(m, |e| - 2, 31);
    TimesUnits(Two(1));
  }

  lemma ShrHigh(x: nat, r: nat)
    requires x < Half && r == 31
    ensures Shr(x, r) == 0
  {
    BaseIsTwo();
    assert Two(32) == 2 * Two(31);
    ShrBound(x, 31, 0);
  }

  /** The highest bit stays apart from the others. */
  lemma {:induction false} ShrMarked(x: nat, r: nat)
    requires r <= 31
    ensures Shr(x + Half, r) == Shr(x, r) + Two(31 - r)
  {
    if r == 0 {
      BaseIsTwo();
      assert Two(32) == 2 * Two(31);
    } else {
      ShrMarked(x, r - 1);
      assert Two(31 - (r - 1)) == 2 * Two(31 - r);
    }
  }

  lemma {:induction false} ReadMarked(e: seq<Limb>, i: nat)
    requires |e| > 1 && i < 32 * (|e| - 1)
    ensures Read(e, 32 * (|e| - 1), i) == Read(Marked(e), 32 * (|e| - 1), i)
    decreases 32 * |e| - i
  {
    if i < 32 * (|e| - 1) - 1 {
      ReadMarked(e, i + 1);
      BitMarked(e, i);
    }
  }

  lemma BitMarked(e: seq<Limb>, i: nat)
    requires |e| > 1 && i < 32 * (|e| - 1) - 1
    ensures Bit(e, i) == Bit(Marked(e), i)
  {
    if i / 32 == |e| - 2 {
      var l := e[|e| - 2];
      ShrMarked(l, i % 32);
      assert Two(31 - i % 32) == 2 * Two(30 - i % 32);
    }
  }
}
