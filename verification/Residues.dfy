/** Remainders of products and powers. */
module Residues {
  import opened Arithmetic
  import opened Limbs

  function AsNat(x: nat, y: nat): (p: nat)
    ensures p == Times(x, y)
  {
    NotNegative(x, y);
    Times(x, y)
  }

  lemma NotNegative(a: nat, b: nat)
    ensures Times(a, b) >= 0
  {
  }

  // ------------------------------------------------------------------ remainders

  function Rem(a: nat, n: nat): (r: nat)
    requires n > 0
    ensures r < n
  {
    a % n
  }

  lemma RemPlus(a: nat, n: nat)
    requires n > 0
    ensures Rem(a + n, n) == Rem(a, n)
  {
    QuotientRemainder(a + n, n, a / n + 1, a % n);
  }

  lemma RemSmall(a: nat, n: nat)
    requires a < n
    ensures Rem(a, n) == a
  {
  }

  lemma {:induction false} RemTimes(a: nat, n: nat, x: nat)
    requires n > 0
    ensures Times(n, x) >= 0 && Rem(a + Times(n, x), n) == Rem(a, n)
  {
    TimesUnits(n);
    hide Times, Rem;
    if x > 0 {
      RemTimes(a, n, x - 1);
      TimesAdds(x - 1, 1, n);
      RemPlus(a + Times(n, x - 1), n);
    }
  }

  // ------------------------------------------------------------------ remainders of products

  lemma RemSplit(a: nat, n: nat) returns (x: nat)
    requires n > 0
    ensures a == Times(n, x) + Rem(a, n)
  {
    x := a / n;
  }

  lemma {:induction false} RemScaled(b: nat, a: nat, c: nat, n: nat)
    requires n > 0
    ensures 0 <= Times(b, Rem(a, n)) && 0 <= Times(b, a)
    ensures Rem(Times(b, Rem(a, n)) + c, n) == Rem(Times(b, a) + c, n)
  {
    hide Times, Rem;
    var x := RemSplit(a, n);
    TimesAdds(Times(n, x), Rem(a, n), b);
    TimesAssoc(b, n, x);
    TimesAssoc(n, b, x);
    NotNegative(b, x);
    NotNegative(b, Rem(a, n));
    NotNegative(b, a);
    RemTimes(Times(b, Rem(a, n)) + c, n, Times(b, x));
  }

  /** Residues can be multiplied in place of the numbers. */
  lemma RemProduct(a: nat, b: nat, n: nat)
    requires n > 0
    ensures 0 <= Times(Rem(a, n), Rem(b, n)) && 0 <= Times(a, b)
    ensures Rem(Times(Rem(a, n), Rem(b, n)), n) == Rem(Times(a, b), n)
  {
    RemScaled(Rem(a, n), b, 0, n);
    RemScaled(b, a, 0, n);
    TimesAssoc(b, a, 0);
    TimesAssoc(b, Rem(a, n), 0);
    hide Times, Rem;
  }

  function Pow(x: nat, e: nat): (p: nat) {
    if e == 0 then 1 else AsNat(x, Pow(x, e - 1))
  }

  lemma {:induction false} PowAdds(x: nat, a: nat, b: nat)
    ensures Pow(x, a + b) == Times(Pow(x, a), Pow(x, b))
  {
    hide Times;
    if a == 0 {
      TimesUnits(Pow(x, b));
    } else {
      PowAdds(x, a - 1, b);
      TimesAssoc(x, Pow(x, a - 1), Pow(x, b));
    }
  }

  ghost function PowMod(x: nat, e: nat, n: nat): nat
    requires n > 0
  {
    Rem(Pow(x, e), n)
  }

  /** Multiplying by x again and again, and taking the remainder each time. */
  lemma PowModSteps(x: nat, e: nat, n: nat)
    requires n > 0
    ensures PowMod(x, 0, n) == 1 % n && PowMod(x, e + 1, n) == PowMod(x, e, n) * x % n
  {
    var p := Pow(x, e);
    RemScaled(x, p, 0, n);
    assert Pow(x, e + 1) == Times(x, p);
    assert Rem(Times(x, p), n) == Rem(Times(x, Rem(p, n)), n);
    assert Times(x, Rem(p, n)) == Rem(p, n) * x;
  }

  lemma PowOne(x: nat)
    ensures Pow(x, 1) == x
  {
    TimesUnits(x);
    assert Pow(x, 1) == Times(x, Pow(x, 0));
  }

  lemma SquareStep(x: nat, h: nat, n: nat)
    requires n > 0
    ensures Rem(AsNat(Rem(Pow(x, h), n), Rem(Pow(x, h), n)), n) == Rem(Pow(x, 2 * h), n)
  {
    hide Times, Rem, Pow;
    RemProduct(Pow(x, h), Pow(x, h), n);
    PowAdds(x, h, h);
  }

  lemma MultiplyStep(x: nat, h: nat, n: nat)
    requires n > 0
    ensures Rem(AsNat(x, Rem(Pow(x, h), n)), n) == Rem(Pow(x, h + 1), n)
  {
    hide Times, Rem;
    RemScaled(x, Pow(x, h), 0, n);
  }

  // ------------------------------------------------------------------ units

  /** There is an inverse. */
  ghost predicate Unit(x: nat, n: nat)
    requires n > 0
  {
    exists y: nat :: Rem(AsNat(x, y), n) == 1
  }

  /** A unit times a number that is not a multiple of n is none either. */
  lemma UnitTimes(x: nat, h: nat, n: nat)
    requires 0 < h < n && Unit(x, n)
    ensures Rem(AsNat(x, h), n) != 0
  {
    var y: nat :| Rem(AsNat(x, y), n) == 1;
    TimesUnits(h);
    TimesUnits(y);
    hide Times, Rem, AsNat;
    RemSmall(0, n);
    if Rem(AsNat(x, h), n) == 0 {
      RemScaled(y, AsNat(x, h), 0, n);
      RemScaled(h, AsNat(x, y), 0, n);
      TimesUnits(y);
      RemSmall(h, n);
      TimesAssoc(x, y, h);
      TimesAssoc(y, x, h);
      TimesAssoc(h, AsNat(x, y), 0);
      assert false;
    }
  }

  lemma UnitPositive(x: nat, n: nat)
    requires n > 0 && Unit(x, n)
    ensures x > 0 && n > 1
  {
    var y: nat :| Rem(AsNat(x, y), n) == 1;
    TimesUnits(y);
  }

  lemma UnitProduct(a: nat, b: nat, n: nat)
    requires n > 0 && Unit(a, n) && Unit(b, n)
    ensures Unit(AsNat(a, b), n)
  {
    hide Times, AsNat, Rem;
    var x: nat :| Rem(AsNat(a, x), n) == 1;
    var y: nat :| Rem(AsNat(b, y), n) == 1;
    TimesUnits(1);
    RemProduct(AsNat(a, x), AsNat(b, y), n);
    Shuffle(a, b, x, y);
    OneSmall(n, AsNat(a, x));
    assert Rem(AsNat(AsNat(a, b), AsNat(x, y)), n) == 1;
  }

  lemma OneSmall(n: nat, a: nat)
    requires n > 0 && Rem(a, n) == 1
    ensures Rem(1, n) == 1
  {
  }

  lemma Shuffle(a: nat, b: nat, x: nat, y: nat)
    ensures AsNat(AsNat(a, b), AsNat(x, y)) == AsNat(AsNat(a, x), AsNat(b, y))
  {
    TimesAssoc(a, b, AsNat(x, y));
    TimesAssoc(b, x, y);
    TimesAssoc(x, b, y);
    TimesAssoc(a, x, AsNat(b, y));
    hide Times;
  }

  lemma UnitRem(x: nat, n: nat)
    requires n > 0 && Unit(x, n)
    ensures Unit(Rem(x, n), n)
  {
    var y: nat :| Rem(AsNat(x, y), n) == 1;
    RemScaled(y, x, 0, n);
    TimesAssoc(x, y, 0);
    TimesAssoc(Rem(x, n), y, 0);
    hide Times, AsNat, Rem;
    assert Rem(AsNat(Rem(x, n), y), n) == 1;
  }

  /** The powers of a unit are units. */
  lemma {:induction false} UnitPow(x: nat, h: nat, n: nat)
    requires n > 0 && Unit(x, n)
    ensures Unit(PowMod(x, h, n), n)
  {
    hide Times, AsNat, Rem, Unit;
    UnitPower(x, h, n);
    UnitRem(Pow(x, h), n);
  }

  lemma {:induction false} UnitPower(x: nat, h: nat, n: nat)
    requires n > 0 && Unit(x, n)
    ensures Unit(Pow(x, h), n)
  {
    if h == 0 {
      var y: nat :| Rem(AsNat(x, y), n) == 1;
      OneIsUnit(n);
    } else {
      UnitPower(x, h - 1, n);
      UnitProduct(x, Pow(x, h - 1), n);
    }
  }

  lemma OneIsUnit(n: nat)
    requires n > 1
    ensures Unit(1, n)
  {
    TimesUnits(1);
    RemSmall(1, n);
    hide Rem;
    assert Rem(AsNat(1, 1), n) == 1;
  }
}
