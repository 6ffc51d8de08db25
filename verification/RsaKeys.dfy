/** What makes the two exponents of signimage/source/common/rsa/src/rsa.c undo each other: a
    modulus of two primes, and a product of the exponents that is one modulo both primes
    reduced by one (section 6 of RFC 2313). */
module RsaKeys {
  import opened Limbs
  import opened Residues

  /** Raising to the public exponent undoes raising to the private one. */
  ghost predicate KeyPair(e: nat, d: nat, n: nat) {
    n > 0 && forall m {:trigger PowMod(m, e, n)} :: 0 <= m < n ==> PowMod(PowMod(m, e, n), d, n) == m
  }

  lemma Recovers(m: nat, e: nat, d: nat, n: nat)
    requires KeyPair(e, d, n) && m < n
    ensures n > 0 && PowMod(PowMod(m, e, n), d, n) == m
  {
  }

  ghost predicate Prime(p: nat) {
    p > 1 && forall d :: 1 < d < p ==> Rem(p, d) != 0
  }

  // ------------------------------------------------------------------ divisibility

  /** A prime that divides a product divides a factor. */
  lemma {:induction false} Euclid(p: nat, a: nat, b: nat)
    requires Prime(p) && 0 < a < p && Rem(AsNat(a, b), p) == 0
    ensures Rem(b, p) == 0
    decreases a
  {
    TimesUnits(b);
    hide Times, Rem, AsNat;
    if a > 1 {
      var q := RemSplit(p, a);
      var r := Rem(p, a);
      NotNegative(a, q);
      TimesAdds(AsNat(a, q), r, b);
      TimesAssoc(a, q, b);
      TimesAssoc(q, a, b);
      RemScaled(q, AsNat(a, b), AsNat(r, b), p);
      TimesUnits(q);
      RemTimes(0, p, b);
      RemSmall(0, p);
      Euclid(p, r, b);
    }
  }

  lemma EuclidRem(p: nat, a: nat, b: nat)
    requires Prime(p) && Rem(AsNat(a, b), p) == 0
    ensures Rem(a, p) == 0 || Rem(b, p) == 0
  {
    hide Times, Rem, AsNat;
    RemScaled(b, a, 0, p);
    TimesAssoc(a, b, 0);
    TimesAssoc(Rem(a, p), b, 0);
    if Rem(a, p) != 0 {
      Euclid(p, Rem(a, p), b);
    }
  }

  /** Equal residues: the difference is a multiple. */
  lemma SameRem(x: nat, y: nat, n: nat)
    requires n > 0 && x <= y
    ensures Rem(x, n) == Rem(y, n) <==> Rem(y - x, n) == 0
  {
    var a := RemSplit(x, n);
    var c := RemSplit(y - x, n);
    hide Times, Rem;
    TimesAdds(a, c, n);
    NotNegative(n, a);
    NotNegative(n, c);
    RemTimes(Rem(x, n) + Rem(y - x, n), n, a + c);
    SmallSum(Rem(x, n), Rem(y - x, n), n);
  }

  lemma SmallSum(r: nat, s: nat, n: nat)
    requires r < n && s < n
    ensures Rem(r + s, n) == r <==> s == 0
  {
    if r + s < n {
      RemSmall(r + s, n);
    } else {
      RemPlus(r + s - n, n);
      RemSmall(r + s - n, n);
    }
  }

  /** A factor that the prime does not divide can be left out. */
  lemma Cancel(p: nat, x: nat, y: nat, c: nat)
    requires Prime(p) && Rem(c, p) != 0 && Rem(AsNat(x, c), p) == Rem(AsNat(y, c), p)
    ensures Rem(x, p) == Rem(y, p)
  {
    hide Times, Rem, AsNat;
    if x > y {
      Cancel(p, y, x, c);
    } else {
      TimesAdds(x, y - x, c);
      TimesGrows(x, y, c);
      SameRem(AsNat(x, c), AsNat(y, c), p);
      EuclidRem(p, y - x, c);
      SameRem(x, y, p);
    }
  }

  // ------------------------------------------------------------------ Fermat's little theorem

  function Product(s: seq<nat>): nat {
    if s == [] then 1 else AsNat(Product(s[..|s| - 1]), s[|s| - 1])
  }

  function Factorial(k: nat): nat {
    if k == 0 then 1 else AsNat(Factorial(k - 1), k)
  }

  /** The residues of the first k multiples of a. */
  function Multiples(a: nat, p: nat, k: nat): (s: seq<nat>)
    requires p > 0
    ensures |s| == k && forall i :: 0 <= i < k ==> s[i] == Rem(AsNat(a, i + 1), p)
  {
    if k == 0 then [] else Multiples(a, p, k - 1) + [Rem(AsNat(a, k), p)]
  }

  ghost predicate Distinct(s: seq<nat>, m: nat) {
    && (forall i :: 0 <= i < |s| ==> 1 <= s[i] <= m)
    && (forall i, j :: 0 <= i < j < |s| ==> s[i] != s[j])
  }

  lemma {:induction false} ProductWithout(s: seq<nat>, i: nat)
    requires i < |s|
    ensures Product(s) == AsNat(Product(s[..i] + s[i + 1..]), s[i])
  {
    hide Times, AsNat;
    var top, rest := |s| - 1, s[..i] + s[i + 1..];
    if i == top {
      assert rest == s[..top];
    } else {
      ProductWithout(s[..top], i);
      assert s[..top][..i] + s[..top][i + 1..] == rest[..top - 1] && rest[top - 1] == s[top];
      var c := Product(rest[..top - 1]);
      TimesAssoc(c, s[i], s[top]);
      TimesAssoc(s[i], s[top], 0);
      TimesAssoc(c, s[top], s[i]);
    }
  }

  /** Different numbers up to m are m at most, and all of them make the factorial. */
  lemma {:induction false} AllFactors(s: seq<nat>, m: nat)
    requires Distinct(s, m)
    ensures |s| <= m && (|s| == m ==> Product(s) == Factorial(m))
  {
    hide AsNat;
    if s != [] {
      assert 1 <= s[0] <= m;
      if i :| 0 <= i < |s| && s[i] == m {
        AllFactors(s[..i] + s[i + 1..], m - 1);
        ProductWithout(s, i);
      } else {
        AllFactors(s, m - 1);
      }
    }
  }

  lemma {:induction false} MultiplesProduct(a: nat, p: nat, k: nat)
    requires p > 0
    ensures Rem(Product(Multiples(a, p, k)), p) == Rem(AsNat(Pow(a, k), Factorial(k)), p)
  {
    hide Times, Rem, AsNat;
    TimesUnits(1);
    if k > 0 {
      var s := Multiples(a, p, k - 1);
      assert Multiples(a, p, k)[..k - 1] == s;
      MultiplesProduct(a, p, k - 1);
      var f := AsNat(Pow(a, k - 1), Factorial(k - 1));
      RemScaled(Product(s), AsNat(a, k), 0, p);
      RemProduct(Product(s), AsNat(a, k), p);
      RemProduct(f, AsNat(a, k), p);
      Shuffle(Pow(a, k - 1), Factorial(k - 1), a, k);
      TimesAssoc(a, Pow(a, k - 1), 0);
    }
  }

  /** The multiples of a number that the prime does not divide are different. */
  lemma MultiplesDistinct(a: nat, p: nat)
    requires Prime(p) && Rem(a, p) != 0
    ensures Distinct(Multiples(a, p, p - 1), p - 1)
  {
    hide Times, Rem, AsNat, Prime, Multiples;
    var s := Multiples(a, p, p - 1);
    forall i | 0 <= i < |s| ensures 1 <= s[i] <= p - 1 {
      NotMultiple(a, i + 1, p);
    }
    forall i, j | 0 <= i < j < |s| ensures s[i] != s[j] {
      MultiplesDiffer(a, i + 1, j + 1, p);
    }
  }

  lemma MultiplesDiffer(a: nat, i: nat, j: nat, p: nat)
    requires Prime(p) && Rem(a, p) != 0 && 0 < i < j < p
    ensures Rem(AsNat(a, i), p) != Rem(AsNat(a, j), p)
  {
    hide Times, Rem, AsNat, Prime;
    NotMultiple(a, j - i, p);
    TimesAdds(i, j - i, a);
    TimesGrows(i, j, a);
    SameRem(AsNat(a, i), AsNat(a, j), p);
  }

  lemma NotMultiple(a: nat, i: nat, p: nat)
    requires Prime(p) && Rem(a, p) != 0 && 0 < i < p
    ensures Rem(AsNat(a, i), p) != 0
  {
    RemSmall(i, p);
    hide Times, Rem, AsNat;
    if Rem(AsNat(a, i), p) == 0 {
      EuclidRem(p, a, i);
    }
  }

  lemma {:induction false} FactorialNotMultiple(k: nat, p: nat)
    requires Prime(p) && k < p
    ensures Rem(Factorial(k), p) != 0
  {
    RemSmall(1, p);
    hide Times, Rem, AsNat;
    if k > 0 {
      FactorialNotMultiple(k - 1, p);
      NotMultiple(Factorial(k - 1), k, p);
    }
  }

  lemma Fermat(a: nat, p: nat)
    requires Prime(p) && Rem(a, p) != 0
    ensures PowMod(a, p - 1, p) == 1
  {
    RemSmall(1, p);
    var f := Factorial(p - 1);
    TimesUnits(f);
    hide Times, Rem, AsNat, Factorial;
    MultiplesDistinct(a, p);
    AllFactors(Multiples(a, p, p - 1), p - 1);
    MultiplesProduct(a, p, p - 1);
    FactorialNotMultiple(p - 1, p);
    Cancel(p, Pow(a, p - 1), 1, f);
  }

  // ------------------------------------------------------------------ exponents

  lemma {:induction false} PowPow(x: nat, e: nat, d: nat)
    ensures Pow(Pow(x, e), d) == Pow(x, AsNat(e, d))
  {
    hide Times;
    TimesUnits(e);
    if d > 0 {
      PowPow(x, e, d - 1);
      TimesAdds(1, d - 1, e);
      PowAdds(x, e, AsNat(e, d - 1));
    }
  }

  lemma {:induction false} PowOfRem(x: nat, d: nat, n: nat)
    requires n > 0
    ensures PowMod(Rem(x, n), d, n) == PowMod(x, d, n)
  {
    hide Times, Rem, AsNat;
    if d > 0 {
      PowOfRem(x, d - 1, n);
      RemProduct(x, Pow(x, d - 1), n);
      RemScaled(Rem(x, n), Pow(Rem(x, n), d - 1), 0, n);
    }
  }

  /** p - 1 more in the exponent change nothing modulo p. */
  lemma {:induction false} MorePowers(m: nat, p: nat, h: nat, k: nat)
    requires Prime(p) && Rem(m, p) != 0
    ensures PowMod(m, h + AsNat(p - 1, k), p) == PowMod(m, h, p)
  {
    hide Times, Rem, AsNat;
    TimesUnits(p - 1);
    if k > 0 {
      MorePowers(m, p, h, k - 1);
      TimesAdds(1, k - 1, p - 1);
      var g := h + AsNat(p - 1, k - 1);
      PowAdds(m, g, p - 1);
      Fermat(m, p);
      RemScaled(Pow(m, g), Pow(m, p - 1), 0, p);
      TimesUnits(Pow(m, g));
    }
  }

  lemma PowOfMultiple(m: nat, f: nat, p: nat)
    requires p > 0 && f > 0 && Rem(m, p) == 0
    ensures PowMod(m, f, p) == 0
  {
    hide Times, Rem, AsNat;
    RemSmall(0, p);
    var c := Pow(m, f - 1);
    RemScaled(c, m, 0, p);
    TimesAssoc(m, c, 0);
    TimesUnits(c);
  }

  /** An exponent that is one modulo p - 1 changes nothing modulo p. */
  lemma Returns(m: nat, f: nat, p: nat)
    requires Prime(p) && f > 0 && Rem(f, p - 1) == Rem(1, p - 1)
    ensures PowMod(m, f, p) == Rem(m, p)
  {
    hide Times, Rem, AsNat, Pow;
    SameRem(1, f, p - 1);
    var k := RemSplit(f - 1, p - 1);
    PowOne(m);
    if Rem(m, p) != 0 {
      MorePowers(m, p, 1, k);
    } else {
      PowOfMultiple(m, f, p);
    }
  }

  // ------------------------------------------------------------------ two primes

  lemma RemOfRem(a: nat, p: nat, q: nat)
    requires p > 0 && q > 0
    ensures AsNat(p, q) > 0 && Rem(Rem(a, AsNat(p, q)), p) == Rem(a, p)
  {
    TopPositive(p, q);
    var x := RemSplit(a, AsNat(p, q));
    hide Times, Rem;
    NotNegative(q, x);
    TimesAssoc(p, q, x);
    RemTimes(Rem(a, AsNat(p, q)), p, AsNat(q, x));
  }

  /** What two primes divide, their product divides. */
  lemma BothDivide(d: nat, p: nat, q: nat)
    requires Prime(p) && Prime(q) && p != q && Rem(d, p) == 0 && Rem(d, q) == 0 && d < AsNat(p, q)
    ensures d == 0
  {
    var c := RemSplit(d, p);
    Apart(p, q);
    var k := 0;
    if c > 0 {
      hide Rem, AsNat;
      EuclidRem(q, p, c);
      k := RemSplit(c, q);
      TimesUnits(q);
      assert k > 0;
      hide Times;
      TimesGrows(1, k, q);
      TimesGrows(q, c, p);
      assert false;
    }
    TimesUnits(p);
  }

  lemma Apart(p: nat, q: nat)
    requires Prime(p) && Prime(q) && p != q
    ensures Rem(p, q) != 0
  {
    if p < q {
      RemSmall(p, q);
    }
  }

  lemma TwoPrimes(x: nat, y: nat, p: nat, q: nat)
    requires Prime(p) && Prime(q) && p != q && x < AsNat(p, q) && y < AsNat(p, q)
    requires Rem(x, p) == Rem(y, p) && Rem(x, q) == Rem(y, q)
    ensures x == y
  {
    hide Times, Rem, AsNat;
    if x > y {
      TwoPrimes(y, x, p, q);
    } else {
      SameRem(x, y, p);
      SameRem(x, y, q);
      BothDivide(y - x, p, q);
    }
  }

  /** The exponents of two primes are a key pair. */
  lemma KeyPairOfPrimes(p: nat, q: nat, e: nat, d: nat)
    requires Prime(p) && Prime(q) && p != q
    requires Rem(AsNat(e, d), p - 1) == Rem(1, p - 1) && Rem(AsNat(e, d), q - 1) == Rem(1, q - 1)
    ensures KeyPair(e, d, AsNat(p, q))
  {
    var n, f := AsNat(p, q), AsNat(e, d);
    TopPositive(p, q);
    Nonzero(f, p, q);
    forall m: nat | m < n ensures PowMod(PowMod(m, e, n), d, n) == m {
      PowOfRem(Pow(m, e), d, n);
      PowPow(m, e, d);
      Returns(m, f, p);
      Returns(m, f, q);
      RemOfRem(Pow(m, f), p, q);
      RemOfRem(Pow(m, f), q, p);
      TimesAssoc(p, q, 0);
      hide Times, Rem, AsNat, Prime;
      TwoPrimes(PowMod(m, f, n), m, p, q);
    }
  }

  lemma Nonzero(f: nat, p: nat, q: nat)
    requires Prime(p) && Prime(q) && p != q && Rem(f, p - 1) == Rem(1, p - 1) && Rem(f, q - 1) == Rem(1, q - 1)
    ensures f > 0
  {
    var r := if p > q then p else q;
    RemSmall(1, r - 1);
    RemSmall(0, r - 1);
  }

  /** A number that neither prime divides is a unit. */
  lemma UnitOfPrimes(x: nat, p: nat, q: nat)
    requires Prime(p) && Prime(q) && p != q && Rem(x, p) != 0 && Rem(x, q) != 0
    ensures AsNat(p, q) > 0 && Unit(x, AsNat(p, q))
  {
    var n, f := AsNat(p, q), AsNat(p - 1, q - 1);
    TopPositive(p, q);
    TopPositive(p - 1, q - 1);
    PowersMeet(x, p, q);
    PowersMeet(x, q, p);
    RemOfRem(Pow(x, f), p, q);
    RemOfRem(Pow(x, f), q, p);
    TimesAssoc(p, q, 0);
    TimesAssoc(p - 1, q - 1, 0);
    MoreThanOne(p, q);
    RemSmall(1, p);
    RemSmall(1, q);
    hide Times, Rem, AsNat, Prime;
    TwoPrimes(PowMod(x, f, n), 1, p, q);
    assert Rem(AsNat(x, Pow(x, f - 1)), n) == 1;
  }

  lemma MoreThanOne(p: nat, q: nat)
    requires p > 1 && q > 1
    ensures AsNat(p, q) > 1
  {
    TimesGrows(2, p, q);
  }

  lemma PowersMeet(x: nat, p: nat, q: nat)
    requires Prime(p) && Rem(x, p) != 0 && q > 0
    ensures PowMod(x, AsNat(p - 1, q - 1), p) == 1
  {
    MorePowers(x, p, 0, q - 1);
    RemSmall(1, p);
    hide Times, Rem, AsNat;
  }
}
