/** Numbers as limbs of 32 bits, lowest first. */
module Limbs {

  const Base: nat := 0x1_0000_0000

  type Limb = n: int | 0 <= n < 0x1_0000_0000

  // ------------------------------------------------------------------ products, by their laws

  function Times(a: int, b: int): int {
    a * b
  }

  lemma TimesAdds(a: int, b: int, p: int)
    ensures Times(a + b, p) == Times(a, p) + Times(b, p) && Times(p, a + b) == Times(p, a) + Times(p, b)
    ensures Times(a - b, p) == Times(a, p) - Times(b, p)
  {
  }

  lemma TimesUnits(a: int)
    ensures Times(0, a) == 0 == Times(a, 0) && Times(1, a) == a == Times(a, 1)
  {
  }

  lemma TimesAssoc(a: int, b: int, c: int)
    ensures Times(Times(a, b), c) == Times(a, Times(b, c)) && Times(a, b) == Times(b, a)
  {
    assert a * b * c == a * (b * c);
  }

  lemma TimesGrows(a: int, b: int, p: nat)
    requires a <= b
    ensures Times(a, p) <= Times(b, p) && Times(p, a) <= Times(p, b)
  {
  }

  lemma TimesBase(a: int, p: int)
    ensures Times(a, Base * p) == Base * Times(a, p) == Times(Base * a, p)
  {
  }

  // ------------------------------------------------------------------ values

  function BasePow(n: nat): (p: nat)
    ensures p > 0
  {
    if n == 0 then 1 else Base * BasePow(n - 1)
  }

  function Val(a: seq<Limb>): (v: nat) {
    if a == [] then 0
    else
      var rest, last := Val(a[..|a| - 1]), Times(a[|a| - 1], BasePow(|a| - 1));
      assert last >= 0;
      rest + last
  }

  lemma ValAppend(a: seq<Limb>, x: Limb)
    ensures Val(a + [x]) == Val(a) + Times(x, BasePow(|a|))
  {
    hide Times, BasePow;
    assert (a + [x])[..|a|] == a;
  }

  lemma {:induction false} ValBound(a: seq<Limb>)
    ensures Val(a) < BasePow(|a|)
  {
    if a != [] {
      ValBound(a[..|a| - 1]);
      Below(a[|a| - 1], Val(a[..|a| - 1]), BasePow(|a| - 1));
    }
  }

  lemma Below(x: Limb, low: nat, p: nat)
    requires low < p
    ensures low + Times(x, p) < Base * p
  {
    TimesGrows(x, Base - 1, p);
  }

  /** The lowest limb comes first. */
  lemma {:induction false} LowLimbFirst(x: Limb, a: seq<Limb>)
    ensures Val([]) == 0 && Val([x] + a) == x + 0x1_0000_0000 * Val(a)
  {
    if a == [] {
      assert [x] + a == [] + [x];
      ValAppend([], x);
    } else {
      var front, last := a[..|a| - 1], a[|a| - 1];
      LowLimbFirst(x, front);
      ValAppend([x] + front, last);
      ValAppend(front, last);
      assert [x] + a == [x] + front + [last] && a == front + [last];
      TimesBase(last, BasePow(|front|));
    }
  }

  function ZeroLimbs(n: nat): (z: seq<Limb>)
    ensures |z| == n
  {
    seq(n, i => 0)
  }

  lemma {:induction false} ValExtend(a: seq<Limb>, n: nat)
    ensures Val(a + ZeroLimbs(n)) == Val(a)
  {
    if n == 0 {
      assert a + ZeroLimbs(0) == a;
    } else {
      ValExtend(a, n - 1);
      assert a + ZeroLimbs(n) == (a + ZeroLimbs(n - 1)) + [0];
      ValAppend(a + ZeroLimbs(n - 1), 0);
    }
  }

  /** Multiplication by a power of the base. */
  lemma {:induction false} ValShift(k: nat, a: seq<Limb>)
    ensures Val(ZeroLimbs(k) + a) == Times(BasePow(k), Val(a))
  {
    if a == [] {
      ValExtend([], k);
      assert ZeroLimbs(k) + a == [] + ZeroLimbs(k);
    } else {
      var front, x := a[..|a| - 1], a[|a| - 1];
      ValShift(k, front);
      assert ZeroLimbs(k) + a == (ZeroLimbs(k) + front) + [x];
      ValAppend(ZeroLimbs(k) + front, x);
      BasePowAdds(k, |front|);
      ShiftStep(BasePow(k), Val(front), x, BasePow(|front|));
    }
  }

  lemma ShiftStep(p: int, v: int, x: int, q: int)
    ensures Times(p, v) + Times(x, Times(p, q)) == Times(p, v + Times(x, q))
  {
    TimesAdds(v, Times(x, q), p);
    TimesAssoc(x, p, q);
    TimesAssoc(p, x, q);
    hide Times;
  }

  lemma {:induction false} BasePowAdds(a: nat, b: nat)
    ensures BasePow(a + b) == Times(BasePow(a), BasePow(b))
  {
    if b > 0 {
      BasePowAdds(a, b - 1);
      TimesBase(BasePow(a), BasePow(b - 1));
    }
  }

  lemma TimesBaseLeft(t: int)
    ensures Times(Base, t) == Base * t
  {
  }

  lemma OneLimb(x: Limb)
    ensures Val([x]) == x
  {
    assert [] + [x] == [x];
    ValAppend([], x);
    TimesUnits(x);
  }

  lemma TopZero(a: seq<Limb>)
    requires a != [] && a[|a| - 1] == 0
    ensures Val(a[..|a| - 1]) == Val(a)
  {
    TimesUnits(BasePow(|a| - 1));
  }

  lemma TopPositive(x: nat, p: nat)
    requires x > 0 && p > 0
    ensures Times(x, p) > 0
  {
  }

  lemma {:induction false} ValPrepend(x: Limb, a: seq<Limb>)
    ensures Val([x] + a) == x + Base * Val(a)
  {
    hide Times;
    if a == [] {
      OneLimb(x);
      assert [x] + a == [x];
    } else {
      var front, y := a[..|a| - 1], a[|a| - 1];
      ValPrepend(x, front);
      assert [x] + a == ([x] + front) + [y];
      ValAppend([x] + front, y);
      TimesBase(y, BasePow(|front|));
    }
  }

  lemma NothingLeft()
    ensures Val([]) == 0
  {
  }

  /** The limbs of y from the i-th on, and one more. */
  lemma HighNext(y: seq<Limb>, i: nat)
    requires i < |y|
    ensures Val(y[i..]) == y[i] + Base * Val(y[i + 1..])
  {
    ValPrepend(y[i], y[i + 1..]);
    assert [y[i]] + y[i + 1..] == y[i..];
  }

  lemma {:induction false} BasePowGrows(a: nat, b: nat)
    requires a <= b
    ensures BasePow(a) <= BasePow(b)
  {
    if a < b {
      BasePowGrows(a, b - 1);
    }
  }

  lemma {:induction false} ValSplit(y: seq<Limb>, j: nat)
    requires j <= |y|
    ensures Val(y) == Val(y[..j]) + Times(BasePow(j), Val(y[j..])) && Val(y[..j]) < BasePow(j)
    ensures Val(y[j..]) <= Val(y)
  {
    hide Times, Val, BasePow;
    ValBound(y[..j]);
    TimesUnits(Val(y[j..]));
    TimesGrows(1, BasePow(j), Val(y[j..]));
    if j == |y| {
      assert y[..j] == y && y[j..] == [];
      NothingLeft();
      TimesUnits(BasePow(j));
    } else {
      var front, x := y[..|y| - 1], y[|y| - 1];
      ValSplit(front, j);
      assert front[..j] == y[..j] && front[j..] + [x] == y[j..] && front + [x] == y;
      ValSplitNext(front, x, j);
    }
  }

  lemma ValSplitNext(y: seq<Limb>, x: Limb, j: nat)
    requires j <= |y| && Val(y) == Val(y[..j]) + Times(BasePow(j), Val(y[j..]))
    ensures Val(y + [x]) == Val(y[..j]) + Times(BasePow(j), Val(y[j..] + [x]))
  {
    hide Times, Val, BasePow;
    ValAppend(y, x);
    ValAppend(y[j..], x);
    ShiftStep(BasePow(j), Val(y[j..]), x, BasePow(|y| - j));
    BasePowAdds(j, |y| - j);
  }

  // ------------------------------------------------------------------ carries

  /** A sum in a limb and a carry, at the place with weight p. */
  lemma Carry(s: int, d: int, next: int, p: int)
    requires s == d + Base * next
    ensures Times(d, p) + Times(next, Base * p) == Times(s, p)
  {
    TimesBase(next, p);
    TimesAdds(d, Base * next, p);
    hide Times;
  }

  lemma AddLaw(r: int, x: int, y: int, xi: int, yi: int, carry: int, d: int, next: int, p: int)
    requires r + Times(carry, p) == x + y && xi + yi + carry == d + Base * next
    ensures (r + Times(d, p)) + Times(next, Base * p) == (x + Times(xi, p)) + (y + Times(yi, p))
  {
    Carry(xi + yi + carry, d, next, p);
    TimesAdds(xi + yi, carry, p);
    TimesAdds(xi, yi, p);
    hide Times;
  }

  lemma AddStep(r: seq<Limb>, x: seq<Limb>, y: seq<Limb>, xi: Limb, yi: Limb, carry: nat, d: Limb, next: nat)
    requires |r| == |x| == |y| && xi + yi + carry == d + Base * next
    requires Val(r) + Times(carry, BasePow(|r|)) == Val(x) + Val(y)
    ensures Val(r + [d]) + Times(next, BasePow(|r| + 1)) == Val(x + [xi]) + Val(y + [yi])
  {
    hide Val, Times;
    ValAppend(r, d);
    ValAppend(x, xi);
    ValAppend(y, yi);
    AddLaw(Val(r), Val(x), Val(y), xi, yi, carry, d, next, BasePow(|r|));
  }

  lemma SubStep(r: seq<Limb>, x: seq<Limb>, y: seq<Limb>, xi: Limb, yi: Limb, carry: nat, d: Limb, next: nat)
    requires |r| == |x| == |y| && d == xi - yi - carry + Base * next
    requires Val(r) + Val(y) == Val(x) + Times(carry, BasePow(|r|))
    ensures Val(r + [d]) + Val(y + [yi]) == Val(x + [xi]) + Times(next, BasePow(|r| + 1))
  {
    hide Val, Times;
    ValAppend(r, d);
    ValAppend(x, xi);
    ValAppend(y, yi);
    SubLaw(Val(r), Val(x), Val(y), xi, yi, carry, d, next, BasePow(|r|));
  }

  lemma SubLaw(r: int, x: int, y: int, xi: int, yi: int, carry: int, d: int, next: int, p: int)
    requires r + y == x + Times(carry, p) && d == xi - yi - carry + Base * next
    ensures (r + Times(d, p)) + (y + Times(yi, p)) == (x + Times(xi, p)) + Times(next, Base * p)
  {
    TimesAdds(xi - yi, carry, p);
    TimesAdds(xi, yi, p);
    TimesAdds(xi - yi - carry, Base * next, p);
    TimesBase(next, p);
    hide Times;
  }

  lemma MulStep(r: seq<Limb>, x: seq<Limb>, xi: Limb, u: Limb, carry: Limb, d: Limb, next: nat)
    requires |r| == |x| && Times(xi, u) + carry == d + Base * next
    requires Val(r) + Times(carry, BasePow(|r|)) == Times(Val(x), u)
    ensures Val(r + [d]) + Times(next, BasePow(|r| + 1)) == Times(Val(x + [xi]), u)
  {
    hide Val, Times;
    ValAppend(r, d);
    ValAppend(x, xi);
    MulLaw(Val(r), Val(x), xi, u, carry, d, next, BasePow(|r|));
  }

  lemma MulLaw(r: int, x: int, xi: int, u: int, carry: int, d: int, next: int, p: int)
    requires r + Times(carry, p) == Times(x, u) && Times(xi, u) + carry == d + Base * next
    ensures (r + Times(d, p)) + Times(next, Base * p) == Times(x + Times(xi, p), u)
  {
    Carry(Times(xi, u) + carry, d, next, p);
    TimesAdds(Times(xi, u), carry, p);
    TimesAdds(x, Times(xi, p), u);
    TimesAssoc(xi, u, p);
    TimesAssoc(xi, p, u);
    TimesAssoc(u, p, 0);
    hide Times;
  }

  /** A product of limbs and a carry leaves a carry of one limb. */
  lemma MulFits(x: Limb, u: Limb, carry: Limb)
    ensures 0 <= Times(x, u) + carry < Base * Base
  {
    TimesGrows(0, x, u);
    TimesUnits(u);
    TimesGrows(x, Base - 1, u);
    TimesGrows(u, Base - 1, Base - 1);
    TimesAssoc(u, Base - 1, 1);
    Square();
    hide Times;
  }

  lemma Square()
    ensures Times(Base - 1, Base - 1) == (Base - 1) * (Base - 1)
  {
  }

  // ------------------------------------------------------------------ comparing

  /** The highest different limb decides. */
  lemma {:induction false} ValLess(a: seq<Limb>, b: seq<Limb>, i: nat)
    requires |a| == |b| && i < |a| && a[i] < b[i] && a[i + 1..] == b[i + 1..]
    ensures Val(a) < Val(b)
  {
    hide Times;
    var n := |a| - 1;
    if i < n {
      assert a[n] == a[i + 1..][n - i - 1] == b[n];
      assert a[..n][i + 1..] == a[i + 1..][..n - i - 1];
      assert b[..n][i + 1..] == b[i + 1..][..n - i - 1];
      ValLess(a[..n], b[..n], i);
    } else {
      ValBound(a[..n]);
      TimesGrows(a[n] + 1, b[n], BasePow(n));
      TimesAdds(a[n], 1, BasePow(n));
      TimesUnits(BasePow(n));
    }
  }

  /** Between the multiples of the power that the top limb tells. */
  lemma TopBounds(a: seq<Limb>)
    requires a != []
    ensures var n := |a| - 1; Times(a[n], BasePow(n)) <= Val(a) < Times(a[n] as int + 1, BasePow(n))
  {
    hide Times;
    ValBound(a[..|a| - 1]);
    TimesAdds(a[|a| - 1], 1, BasePow(|a| - 1));
    TimesUnits(BasePow(|a| - 1));
  }

  lemma TopTwo(a: seq<Limb>)
    requires |a| >= 2
    ensures var n := |a| - 2; Times(Base * a[n + 1] + a[n], BasePow(n)) <= Val(a)
  {
    hide Times;
    var n := |a| - 2;
    var top, low := a[n + 1], a[..n + 1];
    TopBounds(low);
    TimesBase(top, BasePow(n));
    TimesAdds(Base * top, a[n], BasePow(n));
  }

  /** A limb on top makes the number fill its limbs. */
  lemma TopLimb(a: seq<Limb>)
    requires a != []
    ensures a[|a| - 1] != 0 <==> Val(a) >= BasePow(|a| - 1)
  {
    TopBounds(a);
    TimesUnits(BasePow(|a| - 1));
    if a[|a| - 1] != 0 {
      TimesGrows(1, a[|a| - 1], BasePow(|a| - 1));
    }
    hide Times, Val;
  }

  // ------------------------------------------------------------------ sizes

  /** The limbs a number needs. */
  ghost function Size(v: nat): (k: nat)
    ensures k > 0
  {
    if v < Base then 1 else Size(v / Base) + 1
  }

  lemma {:induction false} SizeIs(a: seq<Limb>)
    requires a != [] && (|a| == 1 || a[|a| - 1] != 0)
    ensures Size(Val(a)) == |a|
  {
    HighNext(a, 0);
    assert a[0..] == a;
    hide Val;
    if |a| == 1 {
      NothingLeft();
      assert a[1..] == [];
    } else {
      SizeIs(a[1..]);
      Positive(a[1..]);
      Division(a[0], Val(a[1..]));
    }
  }

  lemma Positive(a: seq<Limb>)
    requires a != [] && a[|a| - 1] != 0
    ensures Val(a) > 0
  {
    TopPositive(a[|a| - 1], BasePow(|a| - 1));
  }

  lemma Division(x: Limb, h: nat)
    ensures (x + Base * h) / Base == h && (x + Base * h) % Base == x
  {
  }

  lemma {:induction false} SizeFits(v: nat, k: nat)
    requires v < BasePow(k) && k > 0
    ensures Size(v) <= k
  {
    if v >= Base {
      SizeFits(v / Base, k - 1);
    }
  }

  lemma {:induction false} SizeHolds(v: nat)
    ensures v < BasePow(Size(v))
  {
    assert BasePow(1) == Base * BasePow(0);
    if v >= Base {
      SizeHolds(v / Base);
    }
  }
}
