/** Exact complex arithmetic: the ring laws, powers, and polynomial evaluation that the
    transform proofs are built on.  Rounding is not modelled. */
module ComplexNumbers {

  datatype Complex = Complex(re: real, im: real)

  const Zero := Complex(0.0, 0.0)
  const One := Complex(1.0, 0.0)

  function Add(a: Complex, b: Complex): Complex {
    Complex(a.re + b.re, a.im + b.im)
  }

  function Sub(a: Complex, b: Complex): Complex {
    Complex(a.re - b.re, a.im - b.im)
  }

  function Mul(a: Complex, b: Complex): Complex {
    Complex(a.re * b.re - a.im * b.im, a.re * b.im + a.im * b.re)
  }

  function Scale(n: nat, a: Complex): Complex {
    Complex(n as real * a.re, n as real * a.im)
  }

  const MinusOne := Complex(-1.0, 0.0)

  lemma MulAssociative(a: Complex, b: Complex, c: Complex)
    ensures Mul(Mul(a, b), c) == Mul(a, Mul(b, c))
  {
  }

  lemma MulCommutative(a: Complex, b: Complex)
    ensures Mul(a, b) == Mul(b, a)
  {
  }

  lemma MulDistributes(a: Complex, b: Complex, c: Complex)
    ensures Mul(a, Add(b, c)) == Add(Mul(a, b), Mul(a, c))
  {
  }

  /** z^n. */
  function Power(z: Complex, n: nat): Complex {
    if n == 0 then One else Mul(z, Power(z, n - 1))
  }

  lemma {:induction false} PowerAdd(z: Complex, m: nat, n: nat)
    ensures Power(z, m + n) == Mul(Power(z, m), Power(z, n))
  {
    hide Mul;
    if m == 0 {
      assert Mul(One, Power(z, n)) == Power(z, n) by { MulOne(Power(z, n)); }
    } else {
      PowerAdd(z, m - 1, n);
      MulAssociative(z, Power(z, m - 1), Power(z, n));
    }
  }

  lemma MulOne(a: Complex)
    ensures Mul(One, a) == a && Mul(a, One) == a
  {
  }

  lemma {:induction false} PowerOfPower(z: Complex, m: nat, n: nat)
    ensures Power(Power(z, m), n) == Power(z, m * n)
  {
    hide Mul;
    if n != 0 {
      PowerOfPower(z, m, n - 1);
      PowerAdd(z, m, m * (n - 1));
      assert m + m * (n - 1) == m * n;
    } else {
      assert m * n == 0;
    }
  }

  lemma {:induction false} PowerOfProduct(a: Complex, b: Complex, n: nat)
    ensures Power(Mul(a, b), n) == Mul(Power(a, n), Power(b, n))
  {
    hide Mul;
    if n == 0 {
      MulOne(One);
    } else {
      PowerOfProduct(a, b, n - 1);
      MulInterchange(a, b, Power(a, n - 1), Power(b, n - 1));
    }
  }

  lemma MulInterchange(a: Complex, b: Complex, c: Complex, d: Complex)
    ensures Mul(Mul(a, b), Mul(c, d)) == Mul(Mul(a, c), Mul(b, d))
  {
    hide Mul;
    MulAssociative(a, b, Mul(c, d));
    MulAssociative(b, c, d);
    MulCommutative(b, c);
    MulAssociative(c, b, d);
    MulAssociative(a, c, Mul(b, d));
  }

  lemma {:induction false} PowerOfOne(n: nat)
    ensures Power(One, n) == One
  {
    hide Mul;
    if n != 0 {
      PowerOfOne(n - 1);
      MulOne(One);
    }
  }

  lemma MinusOneSquared()
    ensures Mul(MinusOne, MinusOne) == One
  {
  }
}
