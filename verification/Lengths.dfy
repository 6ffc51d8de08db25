/** With how many limbs RsaTrans of signimage/source/common/rsa/src/rsa.c records its numbers,
    and when it leaves its arrays: functions of the numbers alone. */
module Lengths {
  import opened Limbs
  import opened Residues

  /** One limb further: the remainder so far moves up, and a partial product comes in. */
  lemma PartialNext(x: nat, h: nat, l: Limb, t: nat, n: nat)
    requires n > 0 && t == Rem(AsNat(x, h), n)
    ensures Rem(Base * t + AsNat(x, l), n) == Rem(AsNat(x, l + Base * h), n)
  {
    hide Times, Rem;
    RemScaled(Base, AsNat(x, h), AsNat(x, l), n);
    TimesBase(1, t);
    TimesUnits(t);
    TimesUnits(Base * t);
    TimesBase(1, AsNat(x, h));
    TimesUnits(AsNat(x, h));
    TimesUnits(Base * AsNat(x, h));
    TimesBase(x, h);
    TimesAdds(l, Base * h, x);
    TimesBaseLeft(t);
    TimesBaseLeft(AsNat(x, h));
  }

  function Larger(a: nat, b: nat): nat {
    if a < b then b else a
  }

  // ------------------------------------------------------------------ when a product leaves its array

  /** The limbs of y from j to j + m bring nothing in, on top of nothing modulo n. */
  ghost predicate Stuck(x: nat, y: seq<Limb>, n: nat, j: nat, m: nat)
    requires j + m <= |y| && n > 0
  {
    AsNat(x, Val(y[j..j + m])) == 0 && Rem(AsNat(x, Val(y[j + m..])), n) == 0
  }

  /** No run of m limbs is stuck. */
  ghost predicate Flows(x: nat, y: seq<Limb>, n: nat, m: nat)
    requires n > 0
  {
    forall j: nat :: j + m <= |y| ==> !Stuck(x, y, n, j, m)
  }

  /** The j-th limb of y adds nothing to nothing. */
  ghost predicate Idle(x: nat, y: seq<Limb>, n: nat, j: nat)
    requires j < |y| && n > 0
  {
    AsNat(x, y[j]) == 0 && Rem(AsNat(x, Val(y[j + 1..])), n) == 0
  }

  /** The number of limbs in a row, from the j-th up, that are idle. */
  ghost function Run(x: nat, y: seq<Limb>, n: nat, j: nat): (r: nat)
    requires j <= |y| && n > 0
    ensures r <= |y| - j
    decreases |y| - j
  {
    if j < |y| && Idle(x, y, n, j) then Run(x, y, n, j + 1) + 1 else 0
  }

  /** The highest limbs alone, and with the next one below. */
  lemma HighNothing(x: nat, y: seq<Limb>, n: nat, j: nat)
    requires j < |y| && n > 0 && Idle(x, y, n, j)
    ensures Rem(AsNat(x, Val(y[j..])), n) == 0
  {
    HighNext(y, j);
    var h := Val(y[j + 1..]);
    PartialNext(x, h, y[j], Rem(AsNat(x, h), n), n);
    RemSmall(0, n);
  }

  lemma {:induction false} StuckIsRun(x: nat, y: seq<Limb>, n: nat, j: nat, m: nat)
    requires 1 <= m && j + m <= |y| && n > 0
    ensures Stuck(x, y, n, j, m) <==> Run(x, y, n, j) >= m
    decreases m
  {
    hide Stuck, Idle;
    if m == 1 {
      StuckOne(x, y, n, j);
    } else {
      StuckIsRun(x, y, n, j + 1, m - 1);
      StuckMore(x, y, n, j, m);
    }
  }

  lemma StuckOne(x: nat, y: seq<Limb>, n: nat, j: nat)
    requires j < |y| && n > 0
    ensures Stuck(x, y, n, j, 1) <==> Idle(x, y, n, j)
  {
    OneLimb(y[j]);
    assert y[j..j + 1] == [y[j]];
    hide Val, Times, Rem, AsNat;
  }

  lemma StuckMore(x: nat, y: seq<Limb>, n: nat, j: nat, m: nat)
    requires 1 < m && j + m <= |y| && n > 0
    ensures Stuck(x, y, n, j, m) <==> AsNat(x, y[j]) == 0 && Stuck(x, y, n, j + 1, m - 1)
    ensures Idle(x, y, n, j + 1) && AsNat(x, y[j]) == 0 ==> Idle(x, y, n, j)
    ensures Idle(x, y, n, j) ==> AsNat(x, y[j]) == 0
  {
    var mid := y[j..j + m];
    HighNext(mid, 0);
    assert mid[0..] == mid && mid[1..] == y[j + 1..j + m];
    ProductZero(x, y[j], Val(mid[1..]));
    if Idle(x, y, n, j + 1) {
      HighNothing(x, y, n, j + 1);
    }
    hide Val, Times, Rem, AsNat;
  }

  lemma ProductZero(x: nat, l: Limb, h: nat)
    ensures AsNat(x, l + Base * h) == 0 <==> AsNat(x, l) == 0 && AsNat(x, h) == 0
  {
    hide Times, AsNat;
    TimesAdds(l, Base * h, x);
    TimesBase(x, h);
    assert AsNat(x, l + Base * h) == AsNat(x, l) + Base * AsNat(x, h);
  }

  /** The number is a unit: exactly its own highest limbs can be stuck. */
  lemma UnitFlows(x: nat, y: seq<Limb>, n: nat, m: nat)
    requires n > 0 && Unit(x, n) && Val(y) < n && 2 <= m
    ensures Flows(x, y, n, m) <==> |y| < m || Val(y) >= BasePow(|y| - m)
  {
    hide Val, Times, Rem, AsNat, Unit;
    if |y| >= m && Val(y) < BasePow(|y| - m) {
      TopStuck(x, y, n, m);
    }
    forall j: nat | j + m <= |y| && Stuck(x, y, n, j, m) ensures Val(y) < BasePow(|y| - m) {
      ValSplit(y, j);
      ValSplit(y, j + m);
      ValSplit(y[j..], m);
      assert y[j..][..m] == y[j..j + m] && y[j..][m..] == y[j + m..];
      UnitHigh(x, Val(y[j + m..]), Val(y[j..j + m]), n);
      TimesUnits(BasePow(m));
      TimesUnits(BasePow(j));
      BasePowGrows(j, |y| - m);
    }
  }

  /** Nothing in the highest limbs. */
  lemma TopStuck(x: nat, y: seq<Limb>, n: nat, m: nat)
    requires n > 0 && m <= |y| && Val(y) < BasePow(|y| - m)
    ensures !Flows(x, y, n, m)
  {
    hide Val, Times, Rem, AsNat;
    var j := |y| - m;
    ValSplit(y, j);
    assert y[j..j + m] == y[j..] && y[j + m..] == [];
    if Val(y[j..]) > 0 {
      TimesGrows(1, Val(y[j..]), BasePow(j));
      TimesUnits(BasePow(j));
    }
    NothingLeft();
    TimesUnits(x);
    RemSmall(0, n);
    assert Stuck(x, y, n, j, m);
  }

  lemma UnitHigh(x: nat, h: nat, mid: nat, n: nat)
    requires n > 0 && Unit(x, n) && h < n && AsNat(x, mid) == 0 && Rem(AsNat(x, h), n) == 0
    ensures h == 0 && mid == 0
  {
    if h > 0 {
      UnitTimes(x, h, n);
    }
    UnitPositive(x, n);
    if mid > 0 {
      TopPositive(x, mid);
    }
  }

  // ------------------------------------------------------------------ recorded lengths

  /** A sum of a number of t limbs moved up by one and a number of l limbs times a limb. */
  ghost function SumLen(t: nat, l: nat, sum: nat): nat {
    var m := Larger(t + 1, l);
    if sum < BasePow(m) then m else m + 1
  }

  lemma SumBound(tLen: nat, l: nat, t: nat, x: nat, u: Limb)
    requires t < BasePow(tLen) && x < BasePow(l)
    ensures Base * t + AsNat(x, u) < BasePow(Larger(tLen + 1, l) + 1)
  {
    var m := Larger(tLen + 1, l);
    BasePowGrows(tLen + 1, m);
    BasePowGrows(l, m);
    assert BasePow(tLen + 1) == Base * BasePow(tLen) && BasePow(m + 1) == Base * BasePow(m);
    TimesGrows(x, BasePow(l) - 1, u);
    TimesGrows(u, Base - 1, BasePow(l) - 1);
    TimesAssoc(Base - 1, BasePow(l) - 1, 0);
    LessOne(BasePow(l) - 1);
    hide Times, BasePow;
  }

  lemma LessOne(q: int)
    ensures Times(Base - 1, q) == Base * q - q
  {
  }

  /** The length of a sum as addition records it: a carry makes it longer. */
  lemma SumLenIs(tLen: nat, l: nat, t: nat, x: nat, u: Limb, uLen: nat, sum: nat, len: nat)
    requires t < BasePow(tLen) && x < BasePow(l) && sum == Base * t + AsNat(x, u) && sum < BasePow(len)
    requires uLen == l || (uLen == l + 1 && AsNat(x, u) >= BasePow(l))
    requires var m := Larger(tLen + 1, uLen); len == m || (len == m + 1 && sum >= BasePow(m))
    ensures len == SumLen(tLen, l, sum)
  {
    hide Times, BasePow, AsNat;
    SumBound(tLen, l, t, x, u);
  }

  /** A remainder modulo n, which has len limbs: only what is not divided keeps its length. */
  ghost function RemLen(a: nat, l: nat, n: nat, len: nat): nat
    requires n > 0
  {
    if l <= len && a < n then l else Size(Rem(a, n))
  }

  /** One limb further. */
  ghost function NextLen(x: nat, l: nat, n: nat, len: nat, t: nat, tLen: nat, yi: Limb): nat
    requires n > 0
  {
    var sum := Base * t + AsNat(x, yi);
    RemLen(sum, SumLen(tLen, l, sum), n, len)
  }

  /** The recorded length of the product with the limbs of y from the j-th on. */
  ghost function LenAt(x: nat, l: nat, y: seq<Limb>, n: nat, len: nat, j: nat): (r: nat)
    requires j <= |y| && n > 0 && l > 0
    ensures j < |y| ==> r > 0
    decreases |y| - j
  {
    if j == |y| then l - 1
    else NextLen(x, l, n, len, Rem(AsNat(x, Val(y[j + 1..])), n), LenAt(x, l, y, n, len, j + 1), y[j])
  }

  lemma LenAtNext(x: nat, l: nat, y: seq<Limb>, n: nat, len: nat, j: nat)
    requires j < |y| && n > 0 && l > 0
    ensures var t, tLen := Rem(AsNat(x, Val(y[j + 1..])), n), LenAt(x, l, y, n, len, j + 1);
      && LenAt(x, l, y, n, len, j) == NextLen(x, l, n, len, t, tLen, y[j])
      && (Inside(x, l, y, n, len, j) <==> t == 0 && AsNat(x, y[j]) == 0 ==> Larger(tLen + 1, l) <= len)
  {
  }

  /** The highest limb comes to nothing yet. */
  lemma FirstLen(x: nat, l: nat, y: seq<Limb>, n: nat, len: nat)
    requires y != [] && 0 < l <= len && n > 0
    ensures var j, product := |y| - 1, AsNat(x, y[|y| - 1]);
      && Inside(x, l, y, n, len, j)
      && AsNat(x, Val(y[j..])) == product
      && LenAt(x, l, y, n, len, j) == RemLen(product, SumLen(l - 1, l, product), n, len)
  {
    HighNext(y, |y| - 1);
    assert y[|y|..] == [];
    NothingLeft();
    TimesUnits(x);
    RemSmall(0, n);
    LenAtNext(x, l, y, n, len, |y| - 1);
  }

  /** The division of the j-th sum stays inside its array: no nothing that is too long. */
  ghost predicate Inside(x: nat, l: nat, y: seq<Limb>, n: nat, len: nat, j: nat)
    requires j < |y| && n > 0 && l > 0
  {
    Idle(x, y, n, j) ==> Larger(LenAt(x, l, y, n, len, j + 1) + 1, l) <= len
  }

  /** The limbs that a remainder of nothing is recorded with; l is the length of x. */
  ghost function ZeroLen(x: nat, l: nat, y: seq<Limb>, n: nat, j: nat): nat
    requires j <= |y| && n > 0 && l > 0
    decreases |y| - j
  {
    if j == |y| then l - 1
    else if Idle(x, y, n, j) then
      var len := ZeroLen(x, l, y, n, j + 1) + 1;
      if len < l then l else len
    else 1
  }

  lemma {:induction false} ZeroLenIsRun(x: nat, l: nat, y: seq<Limb>, n: nat, j: nat)
    requires j <= |y| && n > 0 && l > 0
    ensures l > 1 && (Run(x, y, n, j) > 0 || j == |y|) ==> ZeroLen(x, l, y, n, j) == l - 1 + Run(x, y, n, j)
    ensures l > 1 && j < |y| && Run(x, y, n, j) == 0 ==> ZeroLen(x, l, y, n, j) == 1
    ensures l == 1 ==> ZeroLen(x, l, y, n, j) <= |y| - j
    decreases |y| - j
  {
    hide Idle;
    if j < |y| {
      ZeroLenIsRun(x, l, y, n, j + 1);
    }
  }

  /** From the j-th limb up every division stays inside. */
  ghost predicate AllInside(x: nat, l: nat, y: seq<Limb>, n: nat, len: nat, j: nat)
    requires n > 0 && l > 0
  {
    forall i: nat :: j <= i < |y| ==> Inside(x, l, y, n, len, i)
  }

  /** As long as it does, a remainder of nothing has that length. */
  lemma {:induction false} LenIsZeroLen(x: nat, l: nat, y: seq<Limb>, n: nat, len: nat, j: nat)
    requires j <= |y| && n > 0 && l > 0 && AllInside(x, l, y, n, len, j) && Rem(AsNat(x, Val(y[j..])), n) == 0
    ensures LenAt(x, l, y, n, len, j) == ZeroLen(x, l, y, n, j)
    decreases |y| - j
  {
    hide Val, Times, Rem, AsNat;
    if j < |y| {
      var t := Rem(AsNat(x, Val(y[j + 1..])), n);
      HighNext(y, j);
      PartialNext(x, Val(y[j + 1..]), y[j], t, n);
      if Idle(x, y, n, j) {
        LenIsZeroLen(x, l, y, n, len, j + 1);
        assert Inside(x, l, y, n, len, j);
      } else {
        RemZero(Base * t + AsNat(x, y[j]), n);
      }
    }
  }

  lemma RemZero(a: nat, n: nat)
    requires n > 0 && a > 0 && Rem(a, n) == 0
    ensures a >= n
  {
  }

  /** The same condition on the lengths of nothing. */
  lemma {:induction false} InsideIsShort(x: nat, l: nat, y: seq<Limb>, n: nat, len: nat, j: nat)
    requires j <= |y| && n > 0 && 0 < l <= len
    ensures AllInside(x, l, y, n, len, j) <==> forall i: nat :: j <= i < |y| ==> ZeroLen(x, l, y, n, i) <= len
    decreases |y| - j
  {
    if j < |y| {
      InsideIsShort(x, l, y, n, len, j + 1);
      AllInsideNext(x, l, y, n, len, j);
      if AllInside(x, l, y, n, len, j + 1) {
        InsideStep(x, l, y, n, len, j);
      }
    }
    hide AllInside;
  }

  lemma AllInsideNext(x: nat, l: nat, y: seq<Limb>, n: nat, len: nat, j: nat)
    requires j < |y| && n > 0 && l > 0
    ensures AllInside(x, l, y, n, len, j) <==> Inside(x, l, y, n, len, j) && AllInside(x, l, y, n, len, j + 1)
  {
  }

  lemma InsideStep(x: nat, l: nat, y: seq<Limb>, n: nat, len: nat, j: nat)
    requires j < |y| && n > 0 && 0 < l <= len && AllInside(x, l, y, n, len, j + 1)
    ensures Inside(x, l, y, n, len, j) <==> ZeroLen(x, l, y, n, j) <= len
  {
    if Idle(x, y, n, j) {
      LenIsZeroLen(x, l, y, n, len, j + 1);
    }
    hide AllInside, LenAt;
  }

  /** The product stays inside as long as no run is stuck. */
  lemma FlowsFits(x: nat, l: nat, y: seq<Limb>, n: nat, len: nat)
    requires n > 0 && 0 < l <= len && |y| <= len
    ensures Flows(x, y, n, len - l + 2) <==> AllInside(x, l, y, n, len, 0)
  {
    var m := len - l + 2;
    hide Stuck, ZeroLen, AllInside;
    InsideIsShort(x, l, y, n, len, 0);
    if Flows(x, y, n, m) {
      forall j: nat | j < |y| ensures ZeroLen(x, l, y, n, j) <= len {
        LongIsStuck(x, l, y, n, len, j);
      }
    } else {
      var j: nat :| j + m <= |y| && Stuck(x, y, n, j, m);
      LongIsStuck(x, l, y, n, len, j);
    }
  }

  lemma LongIsStuck(x: nat, l: nat, y: seq<Limb>, n: nat, len: nat, j: nat)
    requires n > 0 && 0 < l <= len && |y| <= len && j < |y|
    ensures var m := len - l + 2; ZeroLen(x, l, y, n, j) > len <==> j + m <= |y| && Stuck(x, y, n, j, m)
  {
    var m := len - l + 2;
    hide Stuck, ZeroLen, Idle;
    ZeroLenIsRun(x, l, y, n, j);
    if j + m <= |y| {
      StuckIsRun(x, y, n, j, m);
    }
  }

  // ------------------------------------------------------------------ a whole power

  /** A base recorded in l limbs, and a modulus of len limbs. */
  datatype Raising = Raising(x: nat, l: nat, n: nat, len: nat) {
    ghost predicate Proper() {
      l > 0 && n > 0
    }

    /** As the callers set it up. */
    ghost predicate Fitting() {
      0 < l <= len && 0 < n <= BasePow(len) && x < n && x < BasePow(l)
    }

    ghost function Residue(g: nat): nat
      requires n > 0
    {
      PowMod(x, g, n)
    }

    /** The residue in the limbs it is recorded with. */
    ghost function Recorded(g: nat): (a: seq<Limb>)
      requires Proper()
      ensures a != []
      decreases g, 1
    {
      ToLimbs(Residue(g), RunLen(g))
    }

    /** Its number of limbs: for the base that of the base, then what the products give. */
    ghost function RunLen(g: nat): (r: nat)
      requires Proper()
      ensures r > 0
      decreases g, 0
    {
      if g <= 1 then l
      else if g % 2 == 0 then SquareLen(g / 2)
      else LenAt(x, l, Squared(g / 2), n, len, 0)
    }

    ghost function SquareLen(h: nat): (r: nat)
      requires Proper()
      ensures r > 0
      decreases h, 2
    {
      LenAt(Residue(h), RunLen(h), Recorded(h), n, len, 0)
    }

    /** The base of a square. */
    ghost function Power(h: nat): (q: Raising)
      requires Proper()
      ensures q.Proper()
    {
      Raising(Residue(h), RunLen(h), n, len)
    }

    /** The square of the h-th power, in the limbs it is recorded with. */
    ghost function Squared(h: nat): (a: seq<Limb>)
      requires Proper()
      ensures a != []
      decreases h, 3
    {
      ToLimbs(Residue(2 * h), SquareLen(h))
    }

    /** The limbs in a row that a factor of l limbs has to spare. */
    ghost function Gap(l: nat): (m: nat) {
      if l <= len then len - l + 2 else 0
    }

    /** The round that ends with the exponent g stays inside the arrays. */
    ghost predicate StepRuns(g: nat)
      requires Proper()
    {
      && Flows(Residue(g / 2), Recorded(g / 2), n, Gap(RunLen(g / 2)))
      && (g % 2 == 1 ==> Flows(x, Squared(g / 2), n, Gap(l)))
    }

    /** All rounds do. */
    ghost predicate Runs(g: nat)
      requires Proper()
      decreases g
    {
      g > 1 ==> Runs(g / 2) && StepRuns(g)
    }

    /** Every number that is multiplied by reaches low: the power so far, which is squared, and
        the square where it is multiplied by the base. */
    ghost predicate Tall(g: nat, low: nat)
      requires n > 0
      decreases g
    {
      g > 1 ==>
        && low <= Residue(g / 2) && (g % 2 == 1 ==> low <= Residue(2 * (g / 2)))
        && Tall(g / 2, low)
    }
  }

  /** A number in a given number of limbs. */
  ghost function ToLimbs(v: nat, k: nat): (a: seq<Limb>)
    ensures |a| == k
  {
    if k == 0 then [] else [v % Base] + ToLimbs(v / Base, k - 1)
  }

  /** Limbs are known by their value and their number. */
  lemma {:induction false} LimbsKnown(a: seq<Limb>)
    ensures ToLimbs(Val(a), |a|) == a
  {
    if a != [] {
      HighNext(a, 0);
      assert a[0..] == a;
      hide Val;
      LimbsKnown(a[1..]);
      Division(a[0], Val(a[1..]));
      assert a == [a[0]] + a[1..];
    }
  }

  lemma {:induction false} ToLimbsValue(v: nat, k: nat)
    requires v < BasePow(k)
    ensures Val(ToLimbs(v, k)) == v
  {
    if k == 0 {
      NothingLeft();
    } else {
      hide Val;
      ToLimbsValue(v / Base, k - 1);
      ValPrepend(v % Base, ToLimbs(v / Base, k - 1));
    }
  }

  /** A remainder fits the limbs it is recorded with. */
  lemma {:induction false} LenAtHolds(x: nat, l: nat, y: seq<Limb>, n: nat, len: nat, j: nat)
    requires j <= |y| && 0 < l <= len && 0 < n <= BasePow(len) && x < BasePow(l)
    ensures LenAt(x, l, y, n, len, j) <= len && Rem(AsNat(x, Val(y[j..])), n) < BasePow(LenAt(x, l, y, n, len, j))
    decreases |y| - j
  {
    hide Val, Times, Rem, AsNat, BasePow;
    if j == |y| {
      assert y[j..] == [];
      NothingLeft();
      TimesUnits(x);
      RemSmall(0, n);
    } else {
      LenAtHolds(x, l, y, n, len, j + 1);
      var t := Rem(AsNat(x, Val(y[j + 1..])), n);
      HighNext(y, j);
      PartialNext(x, Val(y[j + 1..]), y[j], t, n);
      NextLenHolds(x, l, n, len, t, LenAt(x, l, y, n, len, j + 1), y[j]);
    }
  }

  lemma NextLenHolds(x: nat, l: nat, n: nat, len: nat, t: nat, tLen: nat, yi: Limb)
    requires 0 < l <= len && 0 < n <= BasePow(len) && x < BasePow(l) && t < BasePow(tLen)
    ensures var r := NextLen(x, l, n, len, t, tLen, yi); r <= len && Rem(Base * t + AsNat(x, yi), n) < BasePow(r)
  {
    hide Times, Rem, AsNat, BasePow;
    var sum := Base * t + AsNat(x, yi);
    SumBound(tLen, l, t, x, yi);
    if SumLen(tLen, l, sum) <= len && sum < n {
      RemSmall(sum, n);
    } else {
      SizeFits(Rem(sum, n), len);
      SizeHolds(Rem(sum, n));
    }
  }

  /** A power and its square fit the limbs they are recorded with. */
  lemma {:induction false} RunHolds(p: Raising, g: nat)
    requires p.Fitting() && g > 0
    ensures p.RunLen(g) <= p.len && Val(p.Recorded(g)) == p.Residue(g) < BasePow(p.RunLen(g))
    ensures p.SquareLen(g) <= p.len && Val(p.Squared(g)) == p.Residue(2 * g) < BasePow(p.SquareLen(g))
    decreases g
  {
    hide Val, Times, Rem, AsNat, Pow, LenAt;
    if g > 1 {
      RunHolds(p, g / 2);
    }
    PowerHolds(p, g);
    ToLimbsValue(p.Residue(g), p.RunLen(g));
    var y := p.Recorded(g);
    LenAtHolds(p.Residue(g), p.RunLen(g), y, p.n, p.len, 0);
    assert y[0..] == y;
    SquareStep(p.x, g, p.n);
    ToLimbsValue(p.Residue(2 * g), p.SquareLen(g));
  }

  lemma RunFills(p: Raising, g: nat)
    requires p.Fitting() && g > 0 && p.Residue(g) >= BasePow(p.len - 1)
    ensures p.RunLen(g) == p.len
  {
    RunHolds(p, g);
    hide Raising.RunLen, Raising.Residue, Raising.Recorded, Raising.Squared, Raising.SquareLen, Val;
    if p.RunLen(g) < p.len {
      BasePowGrows(p.RunLen(g), p.len - 1);
    }
  }

  lemma PowerHolds(p: Raising, g: nat)
    requires p.Fitting() && g > 0
    requires g > 1 ==>
      p.SquareLen(g / 2) <= p.len && Val(p.Squared(g / 2)) == p.Residue(2 * (g / 2)) < BasePow(p.SquareLen(g / 2))
    ensures p.RunLen(g) <= p.len && p.Residue(g) < BasePow(p.RunLen(g))
  {
    hide Val, Times, Rem, AsNat, Pow, LenAt;
    if g == 1 {
      PowOne(p.x);
      RemSmall(p.x, p.n);
    } else if g % 2 == 1 {
      var y := p.Squared(g / 2);
      LenAtHolds(p.x, p.l, y, p.n, p.len, 0);
      assert y[0..] == y;
      MultiplyStep(p.x, g - 1, p.n);
    }
  }

  /** A square, and a square times the base. */
  lemma SquareGives(p: Raising, h: nat)
    requires p.Proper() && h > 0
    ensures var q := p.Power(h);
      && Rem(AsNat(q.x, p.Residue(h)), q.n) == p.Residue(2 * h)
      && p.RunLen(2 * h) == p.SquareLen(h) == |p.Squared(h)|
      && p.SquareLen(h) == LenAt(q.x, q.l, p.Recorded(h), q.n, q.len, 0)
      && (p.StepRuns(2 * h) <==> Flows(q.x, p.Recorded(h), q.n, q.Gap(q.l)))
  {
    SquareStep(p.x, h, p.n);
    hide LenAt, Flows, Pow, Times, Rem, AsNat;
    assert 2 * h / 2 == h && 2 * h % 2 == 0;
  }

  lemma MultiplyGives(p: Raising, h: nat)
    requires p.Proper() && h > 0
    ensures Rem(AsNat(p.x, p.Residue(2 * h)), p.n) == p.Residue(2 * h + 1)
    ensures p.RunLen(2 * h + 1) == LenAt(p.x, p.l, p.Squared(h), p.n, p.len, 0)
    ensures p.StepRuns(2 * h + 1) <==> p.StepRuns(2 * h) && Flows(p.x, p.Squared(h), p.n, p.Gap(p.l))
  {
    MultiplyStep(p.x, 2 * h, p.n);
    hide LenAt, Flows, Pow, Times, Rem, AsNat;
    assert (2 * h + 1) / 2 == h && (2 * h + 1) % 2 == 1;
    assert 2 * h / 2 == h && 2 * h % 2 == 0;
  }

  /** A round with a set bit squares first. */
  lemma SquareFirst(p: Raising, h: nat)
    requires p.Proper() && h > 0
    ensures p.StepRuns(2 * h + 1) ==> p.StepRuns(2 * h)
  {
    MultiplyGives(p, h);
  }

  /** A number in k limbs is not nothing in its m highest. */
  ghost predicate Reaches(v: nat, k: nat, m: nat) {
    k < m || v >= BasePow(k - m)
  }

  /** For a unit: exactly when a round stays inside. */
  lemma UnitRound(p: Raising, g: nat)
    requires p.Fitting() && Unit(p.x, p.n) && g > 1
    ensures var h := g / 2;
      p.StepRuns(g)
      <==> && Reaches(p.Residue(h), p.RunLen(h), p.Gap(p.RunLen(h)))
           && (g % 2 == 1 ==> Reaches(p.Residue(2 * h), p.SquareLen(h), p.Gap(p.l)))
  {
    hide Val, Times, Rem, AsNat, Pow, Flows, Unit;
    var h := g / 2;
    RunHolds(p, h);
    UnitPow(p.x, h, p.n);
    UnitFlows(p.Residue(h), p.Recorded(h), p.n, p.Gap(p.RunLen(h)));
    UnitFlows(p.x, p.Squared(h), p.n, p.Gap(p.l));
  }

  /** A unit whose powers reach the second highest limb stays inside. */
  lemma {:induction false} TallRuns(p: Raising, g: nat)
    requires p.Fitting() && Unit(p.x, p.n) && p.Tall(g, Low(p.len))
    ensures p.Runs(g)
    decreases g
  {
    if g > 1 {
      TallRuns(p, g / 2);
      hide Val, Times, Rem, AsNat, Pow, PowMod, Flows, Unit;
      var h := g / 2;
      RunHolds(p, h);
      UnitPow(p.x, h, p.n);
      TallFlows(p.Residue(h), p.Recorded(h), p.n, p.len, p.RunLen(h));
      if g % 2 == 1 {
        TallFlows(p.x, p.Squared(h), p.n, p.len, p.l);
      }
    }
  }

  lemma TallFlows(x: nat, y: seq<Limb>, n: nat, len: nat, l: nat)
    requires n > 0 && Unit(x, n) && Low(len) <= Val(y) < n && |y| <= len && l <= len
    ensures Flows(x, y, n, len - l + 2)
  {
    var m := len - l + 2;
    UnitFlows(x, y, n, m);
    if |y| >= m {
      BasePowGrows(|y| - m, len - 2);
    }
  }

  /** A base that has all limbs and nothing in the two highest leaves the arrays. */
  lemma {:induction false} SmallStops(p: Raising, g: nat)
    requires p.Fitting() && p.l == p.len >= 2 && p.x < BasePow(p.len - 2) && g > 1
    ensures !p.Runs(g)
    decreases g
  {
    if g / 2 > 1 {
      SmallStops(p, g / 2);
    } else {
      RunHolds(p, 1);
      PowOne(p.x);
      RemSmall(p.x, p.n);
      TopStuck(p.x, p.Recorded(1), p.n, 2);
    }
  }

  /** What the residues of a run have to reach. */
  function Low(len: nat): nat {
    if len < 2 then 0 else BasePow(len - 2)
  }

}
