/** The discrete Fourier transform of a list of 2^bits points, its decimation in time, and
    its inversion, all in exact arithmetic. */
module FourierTransform {
  import opened ComplexNumbers
  import opened BitReversal

  /** The sum over t' from t of x(t') * w^(t' * k). */
  ghost function SumFrom(x: seq<Complex>, w: Complex, k: nat, t: nat): Complex
    requires t <= |x|
    decreases |x| - t
  {
    if t == |x| then Zero else Add(Mul(x[t], Power(w, t * k)), SumFrom(x, w, k, t + 1))
  }

  /** Transform of x at frequency k with root w. */
  ghost function Dft(x: seq<Complex>, w: Complex, k: nat): Complex {
    SumFrom(x, w, k, 0)
  }

  ghost function DftAll(x: seq<Complex>, w: Complex): (d: seq<Complex>)
    ensures |d| == |x|
  {
    seq(|x|, k requires 0 <= k < |x| => Dft(x, w, k))
  }

  /** The polynomial with coefficients x at z, lowest coefficient first. */
  ghost function Eval(x: seq<Complex>, z: Complex): Complex {
    if x == [] then Zero else Add(x[0], Mul(z, Eval(x[1..], z)))
  }

  lemma {:induction false} SumIsPolynomial(x: seq<Complex>, w: Complex, k: nat, t: nat)
    requires t <= |x|
    ensures SumFrom(x, w, k, t) == Mul(Power(Power(w, k), t), Eval(x[t..], Power(w, k)))
    decreases |x| - t
  {
    hide Mul, Add;
    var z := Power(w, k);
    if t == |x| {
      MulZero(Power(z, t));
    } else {
      var rest := Eval(x[t..][1..], z);
      assert x[t..][1..] == x[t + 1..];
      SumIsPolynomial(x, w, k, t + 1);
      PowerOfPower(w, k, t);
      assert k * t == t * k;
      MulCommutative(x[t], Power(z, t));
      MulCommutative(z, Power(z, t));
      MulAssociative(Power(z, t), z, rest);
      MulDistributes(Power(z, t), x[t], Mul(z, rest));
    }
  }

  lemma MulZero(a: Complex)
    ensures Mul(a, Zero) == Zero && Mul(Zero, a) == Zero
  {
  }

  lemma DftIsPolynomial(x: seq<Complex>, w: Complex, k: nat)
    ensures Dft(x, w, k) == Eval(x, Power(w, k))
  {
    SumIsPolynomial(x, w, k, 0);
    assert x[0..] == x;
    MulOne(Eval(x, Power(w, k)));
  }

  ghost function Evens(x: seq<Complex>): (e: seq<Complex>)
    requires |x| % 2 == 0
    ensures |e| == |x| / 2
  {
    seq(|x| / 2, t requires 0 <= t < |x| / 2 => x[2 * t])
  }

  ghost function Odds(x: seq<Complex>): (o: seq<Complex>)
    requires |x| % 2 == 0
    ensures |o| == |x| / 2
  {
    seq(|x| / 2, t requires 0 <= t < |x| / 2 => x[2 * t + 1])
  }

  /** A polynomial splits into its even and odd coefficients. */
  lemma {:induction false} Decimation(x: seq<Complex>, z: Complex)
    requires |x| % 2 == 0
    ensures Eval(x, z) == Add(Eval(Evens(x), Mul(z, z)), Mul(z, Eval(Odds(x), Mul(z, z))))
  {
    hide Mul, Add;
    if x == [] {
      MulZero(z);
      AddZero(Zero);
    } else {
      var y := x[2..];
      var zz := Mul(z, z);
      Decimation(y, z);
      assert Evens(x)[1..] == Evens(y) && Odds(x)[1..] == Odds(y);
      assert x[1..][1..] == y;
      DecimationStep(x[0], x[1], Eval(Evens(y), zz), Eval(Odds(y), zz), z);
    }
  }

  lemma AddZero(a: Complex)
    ensures Add(a, Zero) == a && Add(Zero, a) == a
  {
  }

  lemma DecimationStep(a: Complex, b: Complex, e: Complex, o: Complex, z: Complex)
    ensures Add(a, Mul(z, Add(b, Mul(z, Add(e, Mul(z, o))))))
         == Add(Add(a, Mul(Mul(z, z), e)), Mul(z, Add(b, Mul(Mul(z, z), o))))
  {
    hide Mul, Add;
    var zz := Mul(z, z);
    MulDistributes(z, e, Mul(z, o));
    MulAssociative(z, z, o);
    MulDistributes(z, b, Add(Mul(z, e), Mul(zz, o)));
    MulDistributes(z, Mul(z, e), Mul(zz, o));
    MulAssociative(z, z, e);
    MulDistributes(z, b, Mul(zz, o));
    AddShuffle(a, Mul(z, b), Mul(zz, e), Mul(z, Mul(zz, o)));
  }

  lemma AddShuffle(a: Complex, b: Complex, e: Complex, o: Complex)
    ensures Add(a, Add(b, Add(e, o))) == Add(Add(a, e), Add(b, o))
  {
  }

  /** root(l) is the root used for blocks of 2^l points: each is the square of the next,
      and the one for two points is -1. */
  ghost predicate RootLaws(root: nat -> Complex, bits: nat) {
    && root(0) == One
    && (bits > 0 ==> root(1) == MinusOne)
    && forall l: nat :: l < bits ==> Squares(root, l)
  }

  ghost predicate Squares(root: nat -> Complex, l: nat) {
    root(l) == Mul(root(l + 1), root(l + 1))
  }

  lemma {:induction false} RootHalfTurn(root: nat -> Complex, bits: nat, l: nat)
    requires RootLaws(root, bits) && 0 < l <= bits
    ensures Power(root(l), Exp2(l - 1)) == MinusOne
  {
    hide Mul;
    if l == 1 {
      assert Power(root(1), 1) == Mul(root(1), One);
      MulOne(root(1));
    } else {
      var w := root(l);
      assert Squares(root, l - 1);
      RootHalfTurn(root, bits, l - 1);
      PowerTwo(w);
      PowerOfPower(w, 2, Exp2(l - 2));
    }
  }

  lemma PowerTwo(w: Complex)
    ensures Power(w, 2) == Mul(w, w)
  {
    hide Mul;
    assert Power(w, 1) == Mul(w, Power(w, 0));
    MulOne(w);
  }

  /** The array between two stages: consecutive blocks of 2^l points, in bit-reversed
      order, each holding its own transform. */
  ghost function Level(x: seq<Complex>, bits: nat, l: nat, root: nat -> Complex): (a: seq<Complex>)
    requires |x| == Exp2(bits) && l <= bits
    ensures |a| == |x|
    decreases bits
  {
    if bits == l then DftAll(x, root(l))
    else Level(Evens(x), bits - 1, l, root) + Level(Odds(x), bits - 1, l, root)
  }

  ghost function BitReversed(x: seq<Complex>, bits: nat): seq<Complex>
    requires |x| == Exp2(bits)
  {
    seq(|x|, i requires 0 <= i < |x| => x[Rev(bits, i)])
  }

  /** Before the first stage the array is the bit-reversed input. */
  lemma {:induction false} LevelZero(x: seq<Complex>, bits: nat, root: nat -> Complex)
    requires |x| == Exp2(bits)
    ensures Level(x, bits, 0, root) == BitReversed(x, bits)
    decreases bits
  {
    if bits == 0 {
      assert DftAll(x, root(0))[0] == x[0] by {
        DftIsPolynomial(x, root(0), 0);
        assert x[1..] == [];
        MulZero(Power(root(0), 0));
        AddZero(x[0]);
      }
      assert Rev(0, 0) == 0;
    } else {
      LevelZero(Evens(x), bits - 1, root);
      LevelZero(Odds(x), bits - 1, root);
    }
  }

  /** One stage: butterflies with twiddle w within every block of 2^(l+1) points. */
  ghost function Stage(a: seq<Complex>, bits: nat, l: nat, w: Complex): (r: seq<Complex>)
    requires |a| == Exp2(bits) && l < bits
    ensures |r| == |a|
  {
    var h := Exp2(bits - 1);
    if bits == l + 1 then
      seq(2 * h, p requires 0 <= p < 2 * h =>
        if p < h then Add(a[p], Mul(Power(w, p), a[p + h]))
        else Sub(a[p - h], Mul(Power(w, p - h), a[p])))
    else
      Stage(a[..h], bits - 1, l, w) + Stage(a[h..], bits - 1, l, w)
  }

  lemma StageOfHalves(u: seq<Complex>, v: seq<Complex>, bits: nat, l: nat, w: Complex)
    requires l + 1 < bits && |u| == |v| == Exp2(bits - 1)
    ensures Stage(u + v, bits, l, w) == Stage(u, bits - 1, l, w) + Stage(v, bits - 1, l, w)
  {
    assert (u + v)[..|u|] == u && (u + v)[|u|..] == v;
  }

  /** The transforms of the even and the odd points, one behind the other. */
  ghost function Halves(x: seq<Complex>, v: Complex): (a: seq<Complex>)
    requires |x| % 2 == 0
    ensures |a| == |x|
  {
    DftAll(Evens(x), v) + DftAll(Odds(x), v)
  }

  /** The last stage, over the whole array. */
  lemma LastStage(x: seq<Complex>, bits: nat, root: nat -> Complex)
    requires bits > 0 && |x| == Exp2(bits) && RootLaws(root, bits)
    ensures Stage(Halves(x, root(bits - 1)), bits, bits - 1, root(bits))
         == DftAll(x, root(bits))
  {
    assert Squares(root, bits - 1);
    RootHalfTurn(root, bits, bits);
    LastStageAt(x, bits, Exp2(bits - 1), root(bits), root(bits - 1));
    hide *;
  }

  lemma LastStageAt(x: seq<Complex>, bits: nat, h: nat, w: Complex, v: Complex)
    requires bits > 0 && |x| == 2 * h == Exp2(bits) && h == Exp2(bits - 1) && v == Mul(w, w) && Power(w, h) == MinusOne
    ensures Stage(Halves(x, v), bits, bits - 1, w) == DftAll(x, w)
  {
    hide Exp2, Mul, Add, Sub, Dft, DftAll, Power, Stage, Evens, Odds, Halves;
    var r, d := Stage(Halves(x, v), bits, bits - 1, w), DftAll(x, w);
    forall p: nat | p < h
      ensures SameAt(r, d, p, h)
    {
      LastPoint(x, bits, h, w, v, p);
    }
    SameByHalves(r, d, h);
  }

  /** Two sequences agree at p and at the same place of their second halves. */
  ghost predicate SameAt(r: seq<Complex>, d: seq<Complex>, p: nat, h: nat) {
    p + h < |r| == |d| && r[p] == d[p] && r[p + h] == d[p + h]
  }

  lemma SameByHalves(r: seq<Complex>, d: seq<Complex>, h: nat)
    requires |r| == |d| == 2 * h && forall p: nat :: p < h ==> SameAt(r, d, p, h)
    ensures r == d
  {
    forall p | 0 <= p < 2 * h
      ensures r[p] == d[p]
    {
      assert SameAt(r, d, if p < h then p else p - h, h);
    }
  }

  lemma LastPoint(x: seq<Complex>, bits: nat, h: nat, w: Complex, v: Complex, p: nat)
    requires bits > 0 && |x| == 2 * h == Exp2(bits) && h == Exp2(bits - 1) && p < h
    requires v == Mul(w, w) && Power(w, h) == MinusOne
    ensures SameAt(Stage(Halves(x, v), bits, bits - 1, w), DftAll(x, w), p, h)
  {
    hide Exp2, Mul, Add, Sub, Dft, Power, Stage, Evens, Odds;
    FinalButterfly(x, h, w, v, p);
    LastButterfly(Halves(x, v), bits, w, p);
    HalvesAt(Evens(x), Odds(x), v, p);
  }

  lemma HalvesAt(e: seq<Complex>, o: seq<Complex>, v: Complex, p: nat)
    requires p < |e| == |o|
    ensures var a := DftAll(e, v) + DftAll(o, v); a[p] == Dft(e, v, p) && a[p + |e|] == Dft(o, v, p)
  {
  }

  lemma LastButterfly(a: seq<Complex>, bits: nat, w: Complex, p: nat)
    requires bits > 0 && |a| == Exp2(bits) && p < Exp2(bits - 1)
    ensures var r, h := Stage(a, bits, bits - 1, w), Exp2(bits - 1);
      r[p] == Add(a[p], Mul(Power(w, p), a[p + h])) && r[p + h] == Sub(a[p], Mul(Power(w, p), a[p + h]))
  {
    hide Mul, Add, Sub, Power;
  }

  /** A stage takes the array from one level to the next. */
  lemma {:induction false} StageLifts(x: seq<Complex>, bits: nat, l: nat, root: nat -> Complex)
    requires |x| == Exp2(bits) && l < bits && RootLaws(root, bits)
    ensures Stage(Level(x, bits, l, root), bits, l, root(l + 1)) == Level(x, bits, l + 1, root)
    decreases bits
  {
    hide Mul, Add, Sub, DftAll, Stage, Power;
    if bits == l + 1 {
      LastStage(x, bits, root);
    } else {
      StageLifts(Evens(x), bits - 1, l, root);
      StageLifts(Odds(x), bits - 1, l, root);
      StageOfHalves(Level(Evens(x), bits - 1, l, root), Level(Odds(x), bits - 1, l, root), bits, l, root(l + 1));
    }
  }

  lemma FinalButterfly(x: seq<Complex>, h: nat, w: Complex, v: Complex, p: nat)
    requires |x| == 2 * h && p < h && v == Mul(w, w) && Power(w, h) == MinusOne
    ensures var t := Mul(Power(w, p), Dft(Odds(x), v, p));
            && Dft(x, w, p) == Add(Dft(Evens(x), v, p), t)
            && Dft(x, w, p + h) == Sub(Dft(Evens(x), v, p), t)
  {
    hide Mul, Add, Sub, Power, Dft, Eval, Evens, Odds;
    var z := Power(w, p);
    DftIsPolynomial(x, w, p);
    DftIsPolynomial(x, w, p + h);
    DftIsPolynomial(Evens(x), v, p);
    DftIsPolynomial(Odds(x), v, p);
    assert Power(v, p) == Mul(z, z) by { PowerOfProduct(w, w, p); }
    Decimation(x, z);
    var y := Power(w, p + h);
    assert y == Mul(z, MinusOne) by { PowerAdd(w, p, h); }
    assert Mul(y, y) == Mul(z, z) by { MulInterchange(z, MinusOne, z, MinusOne); MinusOneSquared(); MulOne(Mul(z, z)); }
    Decimation(x, y);
    NegatedTwiddle(Eval(Evens(x), Mul(z, z)), z, Eval(Odds(x), Mul(z, z)));
  }

  lemma NegatedTwiddle(e: Complex, z: Complex, o: Complex)
    ensures Add(e, Mul(Mul(z, MinusOne), o)) == Sub(e, Mul(z, o))
  {
  }

  // ------------------------------------------------------------------ inversion

  /** The polynomial with n coefficients, all one: a geometric sum. */
  ghost function Ones(n: nat): (s: seq<Complex>)
    ensures |s| == n
  {
    seq(n, t => One)
  }

  lemma {:induction false} OnesAtOne(n: nat)
    ensures Eval(Ones(n), One) == Scale(n, One)
  {
    hide Mul;
    if n > 0 {
      assert Ones(n)[1..] == Ones(n - 1);
      OnesAtOne(n - 1);
      MulOne(Eval(Ones(n - 1), One));
    }
  }

  /** The powers of a root, at every frequency but zero, sum to zero. */
  lemma {:induction false} RootsSumToZero(root: nat -> Complex, bits: nat, d: nat)
    requires RootLaws(root, bits) && 0 < d < Exp2(bits)
    ensures Eval(Ones(Exp2(bits)), Power(root(bits), d)) == Zero
    decreases bits
  {
    hide Mul, Add;
    assert bits > 0 && Squares(root, bits - 1);
    var w, v, h := root(bits), root(bits - 1), Exp2(bits - 1);
    var z := Power(w, d);
    var e := Eval(Ones(h), Mul(z, z));
    assert Evens(Ones(2 * h)) == Ones(h) && Odds(Ones(2 * h)) == Ones(h);
    Decimation(Ones(2 * h), z);
    assert Mul(z, z) == Power(v, d) by { PowerOfProduct(w, w, d); }
    if d == h {
      RootHalfTurn(root, bits, bits);
      MinusOneCancels(e);
    } else {
      var d' := if d < h then d else d - h;
      if d > h {
        FullTurn(root, bits);
        PowerAdd(v, h, d');
        MulOne(Power(v, d'));
      }
      RootsSumToZero(root, bits - 1, d');
      MulZero(z);
      AddZero(Zero);
    }
  }

  lemma FullTurn(root: nat -> Complex, bits: nat)
    requires RootLaws(root, bits) && bits > 0
    ensures Power(root(bits - 1), Exp2(bits - 1)) == One
  {
    hide Mul;
    var w := root(bits);
    assert Squares(root, bits - 1);
    RootHalfTurn(root, bits, bits);
    PowerOfProduct(w, w, Exp2(bits - 1));
    MinusOneSquared();
  }

  lemma MinusOneCancels(e: Complex)
    ensures Add(e, Mul(MinusOne, e)) == Zero
  {
  }

  /** Evaluating y(j) = a + v * w^j * e(j) splits off the constant part. */
  lemma {:induction false} EvalLinear(y: seq<Complex>, a: Complex, v: Complex, w: Complex, e: seq<Complex>, u: Complex)
    requires |y| == |e|
    requires forall j :: 0 <= j < |y| ==> y[j] == Add(a, Mul(Mul(v, Power(w, j)), e[j]))
    ensures Eval(y, u) == Add(Mul(a, Eval(Ones(|y|), u)), Mul(v, Eval(e, Mul(u, w))))
  {
    hide Mul, Add;
    if y == [] {
      MulZero(a);
      MulZero(v);
      AddZero(Zero);
    } else {
      var y', e' := y[1..], e[1..];
      assert Ones(|y|)[1..] == Ones(|y'|);
      forall j | 0 <= j < |y'|
        ensures y'[j] == Add(a, Mul(Mul(Mul(v, w), Power(w, j)), e'[j]))
      {
        MulAssociative(v, w, Power(w, j));
        assert y'[j] == y[j + 1] && e'[j] == e[j + 1];
      }
      EvalLinear(y', a, Mul(v, w), w, e', u);
      MulOne(v);
      EvalLinearStep(a, v, e[0], u, w, Eval(Ones(|y'|), u), Eval(e', Mul(u, w)));
    }
  }

  lemma EvalLinearStep(a: Complex, v: Complex, e0: Complex, u: Complex, w: Complex, s: Complex, r: Complex)
    ensures Add(Add(a, Mul(v, e0)), Mul(u, Add(Mul(a, s), Mul(Mul(v, w), r))))
         == Add(Mul(a, Add(One, Mul(u, s))), Mul(v, Add(e0, Mul(Mul(u, w), r))))
  {
    hide Mul, Add;
    MulDistributes(u, Mul(a, s), Mul(Mul(v, w), r));
    MulDistributes(a, One, Mul(u, s));
    MulOne(a);
    MulDistributes(v, e0, Mul(Mul(u, w), r));
    assert Mul(u, Mul(a, s)) == Mul(a, Mul(u, s)) by {
      MulAssociative(u, a, s); MulCommutative(u, a); MulAssociative(a, u, s);
    }
    assert Mul(u, Mul(Mul(v, w), r)) == Mul(v, Mul(Mul(u, w), r)) by {
      MulAssociative(u, Mul(v, w), r);
      MulAssociative(u, v, w); MulCommutative(u, v); MulAssociative(v, u, w);
      MulAssociative(v, Mul(u, w), r);
    }
    AddSwap(a, Mul(v, e0), Mul(a, Mul(u, s)), Mul(v, Mul(Mul(u, w), r)));
  }

  lemma AddSwap(a: Complex, b: Complex, c: Complex, d: Complex)
    ensures Add(Add(a, b), Add(c, d)) == Add(Add(a, c), Add(b, d))
  {
  }

  /** Two roots are inverse at every size. */
  ghost predicate Inverses(root: nat -> Complex, back: nat -> Complex, bits: nat) {
    Mul(root(bits), back(bits)) == One
  }

  ghost function Values(x: seq<Complex>, w: Complex, n: nat): (y: seq<Complex>)
    ensures |y| == n
  {
    seq(n, j requires 0 <= j < n => Eval(x, Power(w, j)))
  }

  /** back^k * root^t is one for t == k and otherwise a root other than one. */
  lemma FrequencyMismatch(root: nat -> Complex, back: nat -> Complex, bits: nat, k: nat, t: nat)
    requires RootLaws(root, bits) && RootLaws(back, bits) && Inverses(root, back, bits)
    requires k < Exp2(bits) && t < Exp2(bits)
    ensures Eval(Ones(Exp2(bits)), Mul(Power(back(bits), k), Power(root(bits), t)))
         == if t == k then Scale(Exp2(bits), One) else Zero
  {
    hide Mul;
    var w, v := root(bits), back(bits);
    var m := if t < k then t else k;
    assert Mul(Power(v, m), Power(w, m)) == One by {
      MulCommutative(w, v);
      PowerOfProduct(v, w, m);
      PowerOfOne(m);
    }
    if t < k {
      PowerAdd(v, k - t, t);
      MulAssociative(Power(v, k - t), Power(v, t), Power(w, t));
      MulOne(Power(v, k - t));
      RootsSumToZero(back, bits, k - t);
    } else {
      PowerAdd(w, k, t - k);
      MulAssociative(Power(v, k), Power(w, k), Power(w, t - k));
      MulOne(Power(w, t - k));
      if t == k {
        OnesAtOne(Exp2(bits));
      } else {
        RootsSumToZero(root, bits, t - k);
      }
    }
  }

  /** Values of a tail of x, taken apart at its first coefficient. */
  lemma ValuesStep(x: seq<Complex>, w: Complex, n: nat, t: nat, u: Complex)
    requires t < |x|
    ensures Eval(Values(x[t..], w, n), u)
         == Add(Mul(x[t], Eval(Ones(n), u)), Eval(Values(x[t + 1..], w, n), Mul(u, w)))
  {
    hide Mul, Add;
    var y, e := Values(x[t..], w, n), Values(x[t + 1..], w, n);
    assert x[t..][1..] == x[t + 1..];
    forall j | 0 <= j < n
      ensures y[j] == Add(x[t], Mul(Mul(One, Power(w, j)), e[j]))
    {
      MulOne(Power(w, j));
    }
    EvalLinear(y, x[t], One, w, e, u);
    MulOne(Eval(e, Mul(u, w)));
  }

  /** Summing the values of the tail of x from t, turned back to frequency k. */
  lemma {:induction false} InversionFrom(x: seq<Complex>, root: nat -> Complex, back: nat -> Complex, bits: nat,
                                         k: nat, t: nat)
    requires RootLaws(root, bits) && RootLaws(back, bits) && Inverses(root, back, bits)
    requires |x| == Exp2(bits) && k < |x| && t <= |x|
    ensures var u := Mul(Power(back(bits), k), Power(root(bits), t));
            Eval(Values(x[t..], root(bits), |x|), u) == if t <= k then Scale(|x|, x[k]) else Zero
    decreases |x| - t
  {
    hide Mul, Add, Scale, RootLaws, Inverses, Eval;
    var w := root(bits);
    var u := Mul(Power(back(bits), k), Power(w, t));
    if t == |x| {
      EvalZero(Values([], w, |x|), u) by { hide *; EmptyValues(w, |x|); }
      assert x[t..] == [];
    } else {
      ValuesStep(x, w, |x|, t, u);
      assert Mul(u, w) == Mul(Power(back(bits), k), Power(w, t + 1)) by {
        MulAssociative(Power(back(bits), k), Power(w, t), w);
        MulCommutative(Power(w, t), w);
      }
      InversionFrom(x, root, back, bits, k, t + 1);
      FrequencyMismatch(root, back, bits, k, t);
      MulZero(x[t]);
      MulScale(x[t], |x|);
      AddZero(if t <= k then Scale(|x|, x[k]) else Zero);
    }
  }

  lemma EmptyValues(w: Complex, n: nat)
    ensures forall j :: 0 <= j < n ==> Values([], w, n)[j] == Zero
  {
  }

  lemma {:induction false} EvalZero(y: seq<Complex>, u: Complex)
    requires forall j :: 0 <= j < |y| ==> y[j] == Zero
    ensures Eval(y, u) == Zero
  {
    hide Mul, Add;
    if y != [] {
      EvalZero(y[1..], u);
      MulZero(u);
      AddZero(Zero);
    }
  }

  lemma MulScale(a: Complex, n: nat)
    ensures Mul(a, Scale(n, One)) == Scale(n, a)
  {
  }

  /** Transforming and transforming back with the inverse root multiplies by the length. */
  lemma Inversion(x: seq<Complex>, root: nat -> Complex, back: nat -> Complex, bits: nat)
    requires RootLaws(root, bits) && RootLaws(back, bits) && Inverses(root, back, bits)
    requires |x| == Exp2(bits)
    ensures forall k :: 0 <= k < |x| ==> DftAll(DftAll(x, root(bits)), back(bits))[k] == Scale(|x|, x[k])
  {
    hide Mul, Add, Scale, Dft, RootLaws;
    var y := DftAll(x, root(bits));
    forall k | 0 <= k < |x|
      ensures DftAll(y, back(bits))[k] == Scale(|x|, x[k])
    {
      DftIsPolynomial(y, back(bits), k);
      assert y == Values(x[0..], root(bits), |x|) by {
        assert x[0..] == x;
        forall j | 0 <= j < |x|
          ensures y[j] == Eval(x, Power(root(bits), j))
        {
          DftIsPolynomial(x, root(bits), j);
        }
      }
      InversionFrom(x, root, back, bits, k, 0);
      MulOne(Power(back(bits), k));
    }
  }
}
