/** The in-place transform of libs/gnsspc/fft.c over exact reals.  The array keeps the
    source's layout: element 0 is unused, point k is at 2k+1 (real) and 2k+2 (imaginary). */
module Fft {
  import opened Arithmetic
  import opened ComplexNumbers
  import opened BitReversal
  import opened FourierTransform

  // ------------------------------------------------------------------ angles

  /** The cosine the source uses: one minus twice the squared sine of the half angle. */
  ghost function Cos(sin: real -> real, x: real): real {
    1.0 - 2.0 * sin(0.5 * x) * sin(0.5 * x)
  }

  ghost predicate DoubleAngle(sin: real -> real, x: real) {
    sin(2.0 * x) == 2.0 * sin(x) * Cos(sin, x)
  }

  ghost predicate Pythagoras(sin: real -> real, x: real) {
    Cos(sin, x) * Cos(sin, x) + sin(x) * sin(x) == 1.0
  }

  ghost predicate OddAt(sin: real -> real, x: real) {
    sin(-x) == -sin(x)
  }

  /** What the proofs use of the library's sine and of pi. */
  ghost predicate SineLaws(sin: real -> real, pi: real) {
    && sin(pi) == 0.0
    && sin(0.5 * pi) == 1.0
    && (forall x :: DoubleAngle(sin, x))
    && (forall x :: Pythagoras(sin, x))
    && (forall x :: OddAt(sin, x))
  }

  /** theta of a stage whose blocks become mmax points long. */
  function Angle(pi: real, isign: int, mmax: nat): real
    requires (isign == 1 || isign == -1) && mmax > 0
  {
    2.0 * pi / (isign * mmax) as real
  }

  /** The point at angle x on the unit circle. */
  ghost function Turn(sin: real -> real, x: real): Complex {
    Complex(Cos(sin, x), sin(x))
  }

  /** The root used for blocks of 2^l points. */
  ghost function Roots(sin: real -> real, pi: real, isign: int): nat -> Complex
    requires isign == 1 || isign == -1
  {
    (l: nat) => Turn(sin, Angle(pi, isign, Exp2(l)))
  }

  lemma TurnDoubles(sin: real -> real, pi: real, x: real)
    requires SineLaws(sin, pi)
    ensures Turn(sin, 2.0 * x) == Mul(Turn(sin, x), Turn(sin, x))
  {
    assert DoubleAngle(sin, x) && Pythagoras(sin, x);
    assert 0.5 * (2.0 * x) == x;
  }

  lemma TurnBack(sin: real -> real, pi: real, x: real)
    requires SineLaws(sin, pi)
    ensures Mul(Turn(sin, x), Turn(sin, -x)) == One
  {
    assert Pythagoras(sin, x) && OddAt(sin, x) && OddAt(sin, 0.5 * x);
    assert 0.5 * (-x) == -(0.5 * x);
  }

  lemma AngleHalves(pi: real, isign: int, mmax: nat)
    requires (isign == 1 || isign == -1) && mmax > 0
    ensures Angle(pi, isign, mmax) == 2.0 * Angle(pi, isign, 2 * mmax)
    ensures Angle(pi, -isign, mmax) == -Angle(pi, isign, mmax)
    ensures Angle(pi, isign, 1) == 2.0 * Angle(pi, isign, 2)
    ensures Angle(pi, isign, 2) == if isign == 1 then pi else -pi
  {
    var d := mmax as real;
    assert (2 * mmax) as real == 2.0 * d;
    if isign == 1 {
      assert (1 * (2 * mmax)) as real == 2.0 * d;
      assert (-1 * mmax) as real == -d;
      HalfQuotient(2.0 * pi, d);
    } else {
      assert (-1 * (2 * mmax)) as real == -(2.0 * d);
      assert (-1 * mmax) as real == -d;
      HalfQuotient(2.0 * pi, d);
      HalfQuotient(2.0 * pi, -d);
    }
  }

  lemma HalfQuotient(a: real, d: real)
    requires d != 0.0
    ensures a / d == 2.0 * (a / (2.0 * d))
    ensures a / (-d) == -(a / d)
  {
    var q, h, m := a / d, a / (2.0 * d), a / (-d);
    assert q * d == a && h * (2.0 * d) == a && m * (-d) == a;
    ProductZero(q - 2.0 * h, d);
    ProductZero(q + m, d);
  }

  lemma ProductZero(a: real, b: real)
    requires a * b == 0.0 && b != 0.0
    ensures a == 0.0
  {
  }

  /** The sine laws make the stage roots a tower of square roots starting from -1. */
  lemma RootsAreRoots(sin: real -> real, pi: real, isign: int, bits: nat)
    requires SineLaws(sin, pi) && (isign == 1 || isign == -1)
    ensures RootLaws(Roots(sin, pi, isign), bits)
  {
    forall l: nat | l < bits
      ensures Squares(Roots(sin, pi, isign), l)
    {
      RootSquares(sin, pi, isign, l);
    }
    HalfTurn(sin, pi, isign);
  }

  lemma RootSquares(sin: real -> real, pi: real, isign: int, l: nat)
    requires SineLaws(sin, pi) && (isign == 1 || isign == -1)
    ensures Squares(Roots(sin, pi, isign), l)
  {
    hide Cos, Angle, Turn, Mul, SineLaws;
    AngleHalves(pi, isign, Exp2(l));
    TurnDoubles(sin, pi, Angle(pi, isign, Exp2(l + 1)));
  }

  lemma TurnAtPi(sin: real -> real, pi: real, x: real)
    requires SineLaws(sin, pi) && (x == pi || x == -pi)
    ensures Turn(sin, x) == MinusOne
  {
    assert OddAt(sin, pi) && OddAt(sin, 0.5 * pi);
    assert 0.5 * (-pi) == -(0.5 * pi);
  }

  lemma HalfTurn(sin: real -> real, pi: real, isign: int)
    requires SineLaws(sin, pi) && (isign == 1 || isign == -1)
    ensures Roots(sin, pi, isign)(1) == MinusOne
    ensures Roots(sin, pi, isign)(0) == One
  {
    AngleHalves(pi, isign, 1);
    var x := Angle(pi, isign, 2);
    assert Exp2(1) == 2 && Exp2(0) == 1;
    TurnAtPi(sin, pi, x);
    TurnDoubles(sin, pi, x);
    MinusOneSquared();
    hide SineLaws, Angle, Turn, Mul;
  }

  lemma RootsInverse(sin: real -> real, pi: real, isign: int, bits: nat)
    requires SineLaws(sin, pi) && (isign == 1 || isign == -1)
    ensures Inverses(Roots(sin, pi, isign), Roots(sin, pi, -isign), bits)
  {
    hide Turn, Angle, Mul, SineLaws;
    AngleHalves(pi, isign, Exp2(bits));
    TurnBack(sin, pi, Angle(pi, isign, Exp2(bits)));
  }

  // ------------------------------------------------------------------ the array

  ghost function Points(d: seq<real>, nn: nat): (x: seq<Complex>)
    requires |d| >= 2 * nn + 1
    ensures |x| == nn
  {
    seq(nn, k requires 0 <= k < nn => Complex(d[2 * k + 1], d[2 * k + 2]))
  }

  /** Everything outside the nn points. */
  ghost predicate SameOutside(d: seq<real>, e: seq<real>, nn: nat) {
    |d| == |e| && forall i :: 0 <= i < |d| && (i == 0 || i > 2 * nn) ==> d[i] == e[i]
  }

  /** The reordered array while the first `done` swap tests have been made. */
  ghost function Swapped(x: seq<Complex>, bits: nat, done: nat): (y: seq<Complex>)
    requires |x| == Exp2(bits)
    ensures |y| == |x|
  {
    seq(|x|, k requires 0 <= k < |x| => if k < done || Rev(bits, k) < done then x[Rev(bits, k)] else x[k])
  }

  /** Each test swaps exactly the pair it is the first to see. */
  lemma SwapStep(x: seq<Complex>, bits: nat, i: nat)
    requires |x| == Exp2(bits) && i < |x|
    ensures var r, y := Rev(bits, i), Swapped(x, bits, i);
            Swapped(x, bits, i + 1) == if r > i then y[i := y[r]][r := y[i]] else y
  {
    RevInvolution(bits, i);
    forall k: nat | k < |x|
      ensures Rev(bits, Rev(bits, k)) == k
    {
      RevInvolution(bits, k);
    }
  }

  lemma SwapPoints(d: seq<real>, e: seq<real>, nn: nat, a: nat, b: nat)
    requires |e| == |d| >= 2 * nn + 1 && a < b < nn
    requires e[2 * a + 1] == d[2 * b + 1] && e[2 * b + 1] == d[2 * a + 1]
    requires e[2 * a + 2] == d[2 * b + 2] && e[2 * b + 2] == d[2 * a + 2]
    requires forall q | 0 <= q < |d| && q !in {2 * a + 1, 2 * a + 2, 2 * b + 1, 2 * b + 2} :: e[q] == d[q]
    ensures Points(e, nn) == Points(d, nn)[a := Points(d, nn)[b]][b := Points(d, nn)[a]]
    ensures SameOutside(e, d, nn)
  {
  }

  lemma RevZero(bits: nat)
    ensures Rev(bits, 0) == 0
  {
  }

  lemma OutsideChain(d: seq<real>, e: seq<real>, f: seq<real>, nn: nat)
    requires SameOutside(d, e, nn) && SameOutside(e, f, nn)
    ensures SameOutside(d, f, nn)
  {
  }

  /** Lines 71-72. */
  method SwapPair(data: array<real>, nn: nat, i: int, j: int, ghost a: nat, ghost b: nat)
    requires data.Length >= 2 * nn + 1 && a < b < nn && i == 2 * a + 1 && j == 2 * b + 1
    modifies data
    ensures var x := old(Points(data[..], nn));
            Points(data[..], nn) == x[a := x[b]][b := x[a]]
    ensures SameOutside(data[..], old(data[..]), nn)
  {
    var tempr := data[j]; data[j] := data[i]; data[i] := tempr;
    tempr := data[j + 1]; data[j + 1] := data[i + 1]; data[i + 1] := tempr;
    SwapPoints(old(data[..]), data[..], nn, a, b);
  }

  lemma SwapEnds(d: seq<real>, nn: nat, bits: nat)
    requires nn == Exp2(bits) && |d| >= 2 * nn + 1
    ensures Swapped(Points(d, nn), bits, 0) == Points(d, nn) && SameOutside(d, d, nn)
    ensures Swapped(Points(d, nn), bits, nn) == BitReversed(Points(d, nn), bits)
  {
  }

  /** The first loop: bit-reversal permutation with a reversed-carry counter. */
  method Reorder(data: array<real>, nn: nat, ghost bits: nat)
    requires nn == Exp2(bits) && data.Length >= 2 * nn + 1
    modifies data
    ensures Points(data[..], nn) == BitReversed(old(Points(data[..], nn)), bits)
    ensures SameOutside(data[..], old(data[..]), nn)
  {
    hide *;
    ghost var d := data[..];
    ghost var x := Points(d, nn);
    var n := nn * 2;
    var j := 1;
    var i := 1;
    ghost var t := 0;
    RevZero(bits);
    SwapEnds(d, nn, bits);
    while i < n
      invariant t <= nn && i == 2 * t + 1
      invariant t < nn ==> j == 2 * Rev(bits, t) + 1
      invariant Points(data[..], nn) == Swapped(x, bits, t)
      invariant SameOutside(data[..], d, nn)
    {
      ghost var before := data[..];
      if j > i {
        SwapPair(data, nn, i, j, t, Rev(bits, t));
        OutsideChain(data[..], before, d, nn);
      }
      SwapStep(x, bits, t);
      j := Advance(nn, j, bits, t);
      i := i + 2;
      t := t + 1;
    }
  }

  /** The inner while of the first loop: steps j to the next reversed index. */
  method Advance(nn: nat, j0: int, ghost bits: nat, ghost t: nat) returns (j: int)
    requires nn == Exp2(bits) && t < nn && j0 == 2 * Rev(bits, t) + 1
    ensures t + 1 < nn ==> j == 2 * Rev(bits, t + 1) + 1
  {
    j := j0;
    var m := nn;
    ghost var l: nat := bits;
    ghost var r: nat := Rev(bits, t);
    while m >= 2 && j > m
      invariant l <= bits && m == Exp2(l) && r < m && j == 2 * r + 1
      invariant ReverseCarry(l, r) == ReverseCarry(bits, Rev(bits, t))
      decreases m
    {
      j := j - m;
      r := r - Exp2(l - 1);
      m := m / 2;
      l := l - 1;
    }
    j := j + m;
    if t + 1 < nn {
      ReverseCarryCounts(bits, t);
      RevInvolution(bits, t + 1);
      RevZero(bits);
    }
  }

  // ------------------------------------------------------------------ butterflies

  /** Where point p lies in its block of 2 * h points: the lane it shares with its partner,
      and the block. */
  ghost function Lane(p: nat, h: nat): (q: nat)
    requires h > 0
    ensures q < h
  {
    if p % (2 * h) < h then p % (2 * h) else p % (2 * h) - h
  }

  ghost function Block(p: nat, h: nat): int
    requires h > 0
  {
    p / (2 * h)
  }

  /** The two points of lane q in block c are the only ones there. */
  lemma LaneBlock(p: nat, h: nat, c: nat, q: nat)
    requires h > 0 && q < h
    ensures Lane(p, h) == q && Block(p, h) == c <==> p == c * (2 * h) + q || p == c * (2 * h) + q + h
  {
    var w := 2 * h;
    assert p == p / w * w + p % w;
    if p == c * w + q || p == c * w + q + h {
      QuotientRemainder(p, w, c, p - c * w);
    }
  }

  ghost predicate Visited(p: nat, h: nat, q: nat, c: nat)
    requires h > 0
  {
    Lane(p, h) < q || (Lane(p, h) == q && Block(p, h) < c)
  }

  /** The array inside a stage: `a` before it, `b` after it, lanes below q and the first c
      blocks of lane q done. */
  ghost function Mixed(a: seq<Complex>, b: seq<Complex>, h: nat, q: nat, c: nat): (m: seq<Complex>)
    requires h > 0 && |a| == |b|
    ensures |m| == |a|
  {
    seq(|a|, p requires 0 <= p < |a| => if Visited(p, h, q, c) then b[p] else a[p])
  }

  lemma MixedStep(a: seq<Complex>, b: seq<Complex>, h: nat, q: nat, c: nat)
    requires |a| == |b| && q < h && c * (2 * h) + q + h < |a|
    ensures var p, m := c * (2 * h) + q, Mixed(a, b, h, q, c);
            && m[p] == a[p] && m[p + h] == a[p + h]
            && Mixed(a, b, h, q, c + 1) == m[p := b[p]][p + h := b[p + h]]
  {
    var p0, m := c * (2 * h) + q, Mixed(a, b, h, q, c);
    LaneBlock(p0, h, c, q);
    LaneBlock(p0 + h, h, c, q);
    var next := Mixed(a, b, h, q, c + 1);
    forall p | 0 <= p < |a|
      ensures next[p] == m[p0 := b[p0]][p0 + h := b[p0 + h]][p]
    {
      LaneBlock(p, h, c, q);
    }
  }

  lemma MixedNextLane(a: seq<Complex>, b: seq<Complex>, h: nat, q: nat, blocks: nat)
    requires |a| == |b| == blocks * (2 * h) && h > 0
    ensures Mixed(a, b, h, q, blocks) == Mixed(a, b, h, q + 1, 0)
  {
    forall p | 0 <= p < |a|
      ensures Mixed(a, b, h, q, blocks)[p] == Mixed(a, b, h, q + 1, 0)[p]
    {
      BlockInRange(p, 2 * h, blocks);
    }
  }

  lemma BlockInRange(p: nat, w: nat, blocks: nat)
    requires w > 0 && p < blocks * w
    ensures 0 <= p / w < blocks
  {
    var x, y := p / w, p % w;
    assert p == x * w + y;
    if x >= blocks {
      MulBound(blocks - 1, x, w);
    } else if x < 0 {
      MulBound(x, 0, w);
    }
  }

  lemma MixedEnds(a: seq<Complex>, b: seq<Complex>, h: nat)
    requires |a| == |b| && h > 0
    ensures Mixed(a, b, h, 0, 0) == a && Mixed(a, b, h, h, 0) == b
  {
  }

  ghost predicate Butterfly(a: seq<Complex>, r: seq<Complex>, w: Complex, q: nat, p: nat, p': nat)
    requires p < p' < |a| == |r|
  {
    && r[p] == Add(a[p], Mul(Power(w, q), a[p']))
    && r[p'] == Sub(a[p], Mul(Power(w, q), a[p']))
  }

  /** p is the first point of lane q in some block of Exp2(l + 1) points. */
  ghost predicate FirstOfLane(bits: nat, l: nat, q: nat, p: nat)
    requires l < bits
  {
    var half := Exp2(bits - 1);
    if bits == l + 1 then p == q
    else if p < half then FirstOfLane(bits - 1, l, q, p)
    else FirstOfLane(bits - 1, l, q, p - half)
  }

  lemma {:induction false} StagePoint(a: seq<Complex>, bits: nat, l: nat, w: Complex, q: nat, p: nat)
    requires |a| == Exp2(bits) && l < bits && q < Exp2(l) && FirstOfLane(bits, l, q, p)
    requires p + Exp2(l) < |a|
    ensures Butterfly(a, Stage(a, bits, l, w), w, q, p, p + Exp2(l))
    decreases bits
  {
    hide Mul, Add, Sub, Power, Stage;
    var half, h := Exp2(bits - 1), Exp2(l);
    if bits == l + 1 {
      LastButterfly(a, bits, w, p);
    } else {
      LaneInHalf(bits, l, q, if p < half then p else p - half);
      StageOfHalves(a[..half], a[half..], bits, l, w);
      assert a[..half] + a[half..] == a;
      if p < half {
        StagePoint(a[..half], bits - 1, l, w, q, p);
      } else {
        StagePoint(a[half..], bits - 1, l, w, q, p - half);
      }
    }
  }

  /** A lane's pair of points does not straddle the middle of the array. */
  lemma {:induction false} LaneInHalf(bits: nat, l: nat, q: nat, p: nat)
    requires l + 1 < bits && q < Exp2(l) && p < Exp2(bits - 1) && FirstOfLane(bits - 1, l, q, p)
    ensures p + Exp2(l) < Exp2(bits - 1)
    decreases bits
  {
    var half := Exp2(bits - 2);
    if bits - 1 != l + 1 {
      LaneInHalf(bits - 1, l, q, if p < half then p else p - half);
    }
  }

  /** Block c of lane q starts at c * Exp2(l + 1) + q. */
  lemma {:induction false} BlockStart(bits: nat, l: nat, q: nat, c: nat, p: nat)
    requires l < bits && q < Exp2(l) && c < Exp2(bits - 1 - l) && p == c * Exp2(l + 1) + q
    ensures FirstOfLane(bits, l, q, p) && p + Exp2(l) < Exp2(bits)
    decreases bits
  {
    if bits != l + 1 {
      var blocks := Exp2(bits - 2 - l);
      BlockOffset(bits, l, q, c);
      BlockStart(bits - 1, l, q, if c < blocks then c else c - blocks,
                 if c < blocks then p else p - Exp2(bits - 1));
    }
  }

  lemma BlockOffset(bits: nat, l: nat, q: nat, c: nat)
    requires l + 1 < bits && q < Exp2(l)
    ensures var blocks, w := Exp2(bits - 2 - l), Exp2(l + 1);
            if c < blocks then c * w + q + w <= Exp2(bits - 1) + q
            else c * w == (c - blocks) * w + Exp2(bits - 1) && (c - blocks) * w >= 0
  {
    var blocks, w := Exp2(bits - 2 - l), Exp2(l + 1);
    Exp2Splits(bits - 2 - l, l + 1);
    if c < blocks {
      MulBound(c, blocks, w);
    } else {
      Distribute(c - blocks, blocks, w);
    }
  }

  lemma Distribute(a: nat, b: nat, w: nat)
    ensures (a + b) * w == a * w + b * w && a * w >= 0
  {
  }

  /** Writing the two points of a pair. */
  lemma WritePair(d: seq<real>, e: seq<real>, nn: nat, p: nat, p': nat, u: Complex, v: Complex)
    requires |e| == |d| >= 2 * nn + 1 && p < p' < nn
    requires Complex(e[2 * p + 1], e[2 * p + 2]) == u && Complex(e[2 * p' + 1], e[2 * p' + 2]) == v
    requires forall q | 0 <= q < |d| && q !in {2 * p + 1, 2 * p + 2, 2 * p' + 1, 2 * p' + 2} :: e[q] == d[q]
    ensures Points(e, nn) == Points(d, nn)[p := u][p' := v]
    ensures SameOutside(e, d, nn)
  {
  }

  /** The body of the innermost loop. */
  method ButterflyAt(data: array<real>, nn: nat, i: int, j: int, wr: real, wi: real, ghost p: nat, ghost p': nat)
    requires data.Length >= 2 * nn + 1 && p < p' < nn && i == 2 * p + 1 && j == 2 * p' + 1
    modifies data
    ensures var x, t := old(Points(data[..], nn)), Mul(Complex(wr, wi), old(Points(data[..], nn))[p']);
            Points(data[..], nn) == x[p := Add(x[p], t)][p' := Sub(x[p], t)]
    ensures SameOutside(data[..], old(data[..]), nn)
  {
    var tempr := wr * data[j] - wi * data[j + 1];
    var tempi := wr * data[j + 1] + wi * data[j];
    assert Complex(tempr, tempi) == Mul(Complex(wr, wi), Points(data[..], nn)[p']);
    hide Mul;
    data[j] := data[i] - tempr;
    data[j + 1] := data[i + 1] - tempi;
    data[i] := data[i] + tempr;
    data[i + 1] := data[i + 1] + tempi;
    ghost var x := old(Points(data[..], nn));
    ghost var t := Mul(Complex(wr, wi), x[p']);
    WritePair(old(data[..]), data[..], nn, p, p', Add(x[p], t), Sub(x[p], t));
  }

  lemma Cancel(c: nat, blocks: nat, w: nat)
    requires c * w < blocks * w
    ensures c < blocks
  {
    if c > blocks {
      MulBound(blocks, c, w);
    }
  }

  lemma AllBlocks(c: nat, blocks: nat, w: nat)
    requires c <= blocks && c * w + w > blocks * w
    ensures c == blocks
  {
    if c < blocks {
      MulBound(c, blocks, w);
    }
  }

  /** A butterfly at the start of block c of lane q carries the array one block further. */
  lemma LaneStep(a: seq<Complex>, bits: nat, l: nat, w: Complex, q: nat, c: nat, p: nat)
    requires |a| == Exp2(bits) && l < bits && q < Exp2(l) && c < Exp2(bits - 1 - l)
    requires p == c * (2 * Exp2(l)) + q
    ensures p + Exp2(l) < |a|
    ensures var h, b := Exp2(l), Stage(a, bits, l, w);
            var x := Mixed(a, b, h, q, c);
            var t := Mul(Power(w, q), x[p + h]);
            Mixed(a, b, h, q, c + 1) == x[p := Add(x[p], t)][p + h := Sub(x[p], t)]
  {
    hide Mixed, Stage, Add, Sub, Mul, Power;
    BlockStart(bits, l, q, c, p);
    StagePoint(a, bits, l, w, q, p);
    MixedStep(a, Stage(a, bits, l, w), Exp2(l), q, c);
  }

  /** One lane across all blocks: the innermost loop. */
  method LanePass(data: array<real>, nn: nat, m: int, mmax: int, wr: real, wi: real,
                  ghost bits: nat, ghost l: nat, ghost q: nat, ghost w: Complex, ghost a: seq<Complex>)
    requires nn == Exp2(bits) == |a| && data.Length >= 2 * nn + 1 && l < bits
    requires mmax == 2 * Exp2(l) && q < Exp2(l) && m == 2 * q + 1
    requires Complex(wr, wi) == Power(w, q)
    requires Points(data[..], nn) == Mixed(a, Stage(a, bits, l, w), Exp2(l), q, 0)
    modifies data
    ensures Points(data[..], nn) == Mixed(a, Stage(a, bits, l, w), Exp2(l), q + 1, 0)
    ensures SameOutside(data[..], old(data[..]), nn)
  {
    hide Mixed, Points, Stage, Add, Sub, Mul, Power;
    var n := nn * 2;
    var istep := 2 * mmax;
    var i := m;
    ghost var h := Exp2(l);
    ghost var blocks := Exp2(bits - 1 - l);
    ghost var b := Stage(a, bits, l, w);
    ghost var c := 0;
    ghost var p := q;
    assert nn == blocks * (2 * h) by { Exp2Splits(bits - 1 - l, l + 1); }
    while i <= n
      invariant c <= blocks && p == c * (2 * h) + q && i == 2 * p + 1
      invariant Points(data[..], nn) == Mixed(a, b, h, q, c)
      invariant SameOutside(data[..], old(data[..]), nn)
      decreases n - i
    {
      var j := i + mmax;
      Cancel(c, blocks, 2 * h);
      LaneStep(a, bits, l, w, q, c, p);
      ButterflyAt(data, nn, i, j, wr, wi, p, p + h);
      i := i + istep;
      c := c + 1;
      p := p + 2 * h;
      Distribute(c - 1, 1, 2 * h);
    }
    AllBlocks(c, blocks, 2 * h);
    MixedNextLane(a, b, h, q, blocks);
  }

  /** Lines 87-89: the stage's root, less one. */
  method StageRoot(sin: real -> real, theta: real) returns (wpr: real, wpi: real)
    ensures wpr == -2.0 * sin(0.5 * theta) * sin(0.5 * theta) && wpi == sin(theta)
    ensures Complex(1.0 + wpr, wpi) == Turn(sin, theta)
  {
    var wtemp := sin(0.5 * theta);
    wpr := -2.0 * wtemp * wtemp;
    wpi := sin(theta);
  }

  lemma TwiddleProduct(wr: real, wi: real, wpr: real, wpi: real)
    ensures Mul(Complex(1.0 + wpr, wpi), Complex(wr, wi))
         == Complex(wr * wpr - wi * wpi + wr, wi * wpr + wr * wpi + wi)
  {
  }

  /** Lines 104-105: the recurrence multiplies the twiddle by the stage's root. */
  method NextTwiddle(wr0: real, wi0: real, wpr: real, wpi: real, ghost w: Complex, ghost q: nat)
    returns (wr: real, wi: real)
    requires w == Complex(1.0 + wpr, wpi) && Complex(wr0, wi0) == Power(w, q)
    ensures Complex(wr, wi) == Power(w, q + 1)
  {
    wr, wi := wr0, wi0;
    var wtemp := wr;
    wr := wr * wpr - wi * wpi + wr;
    wi := wi * wpr + wtemp * wpi + wi;
    hide Mul;
    TwiddleProduct(wr0, wi0, wpr, wpi);
  }

  /** The middle loop: every lane, with the twiddle running through the powers of w. */
  method LanePasses(data: array<real>, nn: nat, mmax: int, wpr: real, wpi: real,
                    ghost bits: nat, ghost l: nat, ghost w: Complex)
    requires nn == Exp2(bits) && data.Length >= 2 * nn + 1 && l < bits && mmax == 2 * Exp2(l)
    requires w == Complex(1.0 + wpr, wpi)
    modifies data
    ensures Points(data[..], nn) == Stage(old(Points(data[..], nn)), bits, l, w)
    ensures SameOutside(data[..], old(data[..]), nn)
  {
    hide Points, Mixed, Stage;
    var wr, wi := 1.0, 0.0;
    ghost var a := Points(data[..], nn);
    ghost var b := Stage(a, bits, l, w);
    ghost var h, q := Exp2(l), 0;
    MixedEnds(a, b, h);
    var m := 1;
    while m < mmax
      invariant q <= h && m == 2 * q + 1
      invariant Complex(wr, wi) == Power(w, q)
      invariant Points(data[..], nn) == Mixed(a, b, h, q, 0)
      invariant SameOutside(data[..], old(data[..]), nn)
    {
      LanePass(data, nn, m, mmax, wr, wi, bits, l, q, w, a);
      wr, wi := NextTwiddle(wr, wi, wpr, wpi, w, q);
      m := m + 2;
      q := q + 1;
    }
  }

  /** One pass of the second loop. */
  method StagePass(data: array<real>, nn: nat, mmax: int, isign: int, sin: real -> real, pi: real,
                   ghost bits: nat, ghost l: nat)
    requires nn == Exp2(bits) && data.Length >= 2 * nn + 1 && l < bits && mmax == 2 * Exp2(l)
    requires isign == 1 || isign == -1
    modifies data
    ensures Points(data[..], nn) == Stage(old(Points(data[..], nn)), bits, l, Roots(sin, pi, isign)(l + 1))
    ensures SameOutside(data[..], old(data[..]), nn)
  {
    hide Points, Stage, Turn, Angle;
    var theta := Angle(pi, isign, mmax);
    var wpr, wpi := StageRoot(sin, theta);
    LanePasses(data, nn, mmax, wpr, wpi, bits, l, Turn(sin, theta));
  }

  /** A pass takes the array from one level of the transform to the next. */
  method LevelUp(data: array<real>, nn: nat, mmax: int, isign: int, sin: real -> real, pi: real,
                 ghost bits: nat, ghost l: nat, ghost x: seq<Complex>)
    requires nn == Exp2(bits) == |x| && data.Length >= 2 * nn + 1 && l < bits && mmax == 2 * Exp2(l)
    requires (isign == 1 || isign == -1) && SineLaws(sin, pi)
    requires Points(data[..], nn) == Level(x, bits, l, Roots(sin, pi, isign))
    modifies data
    ensures Points(data[..], nn) == Level(x, bits, l + 1, Roots(sin, pi, isign))
    ensures SameOutside(data[..], old(data[..]), nn)
  {
    hide Points, Stage, Level, SineLaws, RootLaws, Roots;
    StagePass(data, nn, mmax, isign, sin, pi, bits, l);
    RootsAreRoots(sin, pi, isign, bits);
    StageLifts(x, bits, l, Roots(sin, pi, isign));
  }

  /** The second loop: bits stages. */
  method Combine(data: array<real>, nn: nat, isign: int, sin: real -> real, pi: real,
                 ghost bits: nat, ghost x: seq<Complex>)
    requires nn == Exp2(bits) == |x| && data.Length >= 2 * nn + 1
    requires (isign == 1 || isign == -1) && SineLaws(sin, pi)
    requires Points(data[..], nn) == BitReversed(x, bits)
    modifies data
    ensures Points(data[..], nn) == DftAll(x, Roots(sin, pi, isign)(bits))
    ensures SameOutside(data[..], old(data[..]), nn)
  {
    hide Points, Stage, BitReversed, SineLaws;
    ghost var root := Roots(sin, pi, isign);
    LevelZero(x, bits, root);
    assert Level(x, bits, bits, root) == DftAll(x, root(bits));
    hide Level, DftAll, Roots;
    var n := nn * 2;
    var mmax := 2;
    ghost var l: nat := 0;
    while n > mmax
      invariant l <= bits && mmax == 2 * Exp2(l)
      invariant Points(data[..], nn) == Level(x, bits, l, root)
      invariant SameOutside(data[..], old(data[..]), nn)
      decreases bits - l
    {
      Exp2Grows(l, bits);
      var istep := 2 * mmax;
      LevelUp(data, nn, mmax, isign, sin, pi, bits, l, x);
      mmax := istep;
      l := l + 1;
    }
    Exp2Grows(l, bits);
  }

  lemma {:induction false} Exp2Grows(l: nat, bits: nat)
    requires l <= bits
    ensures Exp2(l) < Exp2(bits) <==> l < bits
  {
    if l < bits {
      Exp2Grows(l, bits - 1);
    }
  }

  /** The root at angle 2 pi / (isign * nn), written out. */
  lemma LastRoot(sin: real -> real, pi: real, isign: int, nn: nat) returns (w: Complex)
    requires (isign == 1 || isign == -1) && nn > 0
    ensures var theta := 2.0 * pi / (isign * nn) as real;
            w.re == 1.0 - 2.0 * sin(0.5 * theta) * sin(0.5 * theta) && w.im == sin(theta)
    ensures w == Turn(sin, Angle(pi, isign, nn))
  {
    w := Turn(sin, Angle(pi, isign, nn));
  }

  /** The whole routine computes the transform: point k becomes the sum over t of
      x(t) * w^(t * k), with w at angle 2 pi / (isign * nn). */
  method FFT(data: array<real>, nn: nat, isign: int, sin: real -> real, pi: real, ghost bits: nat)
    returns (ghost w: Complex)
    requires nn == Exp2(bits) && data.Length >= 2 * nn + 1
    requires (isign == 1 || isign == -1) && SineLaws(sin, pi)
    modifies data
    ensures var theta := 2.0 * pi / (isign * nn) as real;
            w.re == 1.0 - 2.0 * sin(0.5 * theta) * sin(0.5 * theta) && w.im == sin(theta)
    ensures Points(data[..], nn) == DftAll(old(Points(data[..], nn)), w)
    ensures SameOutside(data[..], old(data[..]), nn)
    ensures w == Turn(sin, Angle(pi, isign, nn))
  {
    w := LastRoot(sin, pi, isign, nn);
    hide Dft, Points, BitReversed, SineLaws, Turn, Angle;
    ghost var x := Points(data[..], nn);
    Reorder(data, nn, bits);
    Combine(data, nn, isign, sin, pi, bits, x);
  }

  /** The forward transform followed by the backward one multiplies every point by nn. */
  method ForwardAndBack(data: array<real>, nn: nat, sin: real -> real, pi: real, ghost bits: nat)
    requires nn == Exp2(bits) && data.Length >= 2 * nn + 1 && SineLaws(sin, pi)
    modifies data
    ensures forall k :: 0 <= k < nn ==> Points(data[..], nn)[k] == Scale(nn, old(Points(data[..], nn))[k])
    ensures SameOutside(data[..], old(data[..]), nn)
  {
    ghost var x := Points(data[..], nn);
    hide Dft, DftAll, Points, SineLaws, Scale, RootLaws, Inverses, Turn, Angle;
    ghost var w, w';
    w := FFT(data, nn, 1, sin, pi, bits);
    w' := FFT(data, nn, -1, sin, pi, bits);
    ThereAndBack(x, sin, pi, bits);
  }

  lemma ThereAndBack(x: seq<Complex>, sin: real -> real, pi: real, bits: nat)
    requires |x| == Exp2(bits) && SineLaws(sin, pi)
    ensures var there := DftAll(x, Turn(sin, Angle(pi, 1, |x|)));
            forall k :: 0 <= k < |x| ==> DftAll(there, Turn(sin, Angle(pi, -1, |x|)))[k] == Scale(|x|, x[k])
  {
    hide Dft, SineLaws, Scale, RootLaws, Inverses, Turn, Angle;
    RootsAreRoots(sin, pi, 1, bits);
    RootsAreRoots(sin, pi, -1, bits);
    RootsInverse(sin, pi, 1, bits);
    Inversion(x, Roots(sin, pi, 1), Roots(sin, pi, -1), bits);
  }

  // ------------------------------------------------------------------ four points

  /** A quarter of a turn is i: its cosine is zero because its sine is one. */
  lemma QuarterTurn(sin: real -> real, pi: real)
    requires SineLaws(sin, pi)
    ensures Turn(sin, 0.5 * pi) == Complex(0.0, 1.0) && Turn(sin, -0.5 * pi) == Complex(0.0, -1.0)
  {
    var x := 0.5 * pi;
    assert Pythagoras(sin, x) && OddAt(sin, x) && OddAt(sin, 0.5 * x);
    if Cos(sin, x) != 0.0 {
      ProductZero(Cos(sin, x), Cos(sin, x));
    }
    assert -0.5 * pi == -x && 0.5 * -x == -(0.5 * x);
  }

  /** Sums of four points under the powers of i or -i. */
  ghost function QuarterSums(x: seq<Complex>, s: real): (y: seq<Complex>)
    requires |x| == 4
    ensures |y| == 4
  {
    var a, b, c, d := x[0], x[1], x[2], x[3];
    [Complex(a.re + b.re + c.re + d.re, a.im + b.im + c.im + d.im),
     Complex(a.re - s * b.im - c.re + s * d.im, a.im + s * b.re - c.im - s * d.re),
     Complex(a.re - b.re + c.re - d.re, a.im - b.im + c.im - d.im),
     Complex(a.re + s * b.im - c.re - s * d.im, a.im - s * b.re - c.im + s * d.re)]
  }

  /** The transform of four points when the root is i or -i. */
  lemma FourPointSum(x: seq<Complex>, s: real)
    requires |x| == 4 && (s == 1.0 || s == -1.0)
    ensures DftAll(x, Complex(0.0, s)) == QuarterSums(x, s)
  {
    PowersOfQuarter(s);
    Quarters(x, s);
    TransformOfFour(x, Complex(0.0, s));
    hide DftAll, Power, Mul, FourTerms, QuarterSums;
  }

  lemma TransformOfFour(x: seq<Complex>, w: Complex)
    requires |x| == 4
    ensures DftAll(x, w) == [TermsAt(x, w, 0), TermsAt(x, w, 1), TermsAt(x, w, 2), TermsAt(x, w, 3)]
  {
    SumOfFour(x, w, 0);
    SumOfFour(x, w, 1);
    SumOfFour(x, w, 2);
    SumOfFour(x, w, 3);
    hide Dft, TermsAt;
  }

  ghost function TermsAt(x: seq<Complex>, w: Complex, k: nat): Complex
    requires |x| == 4
  {
    FourTerms(x[0], Mul(x[1], Power(w, k)), Mul(x[2], Power(w, 2 * k)), Mul(x[3], Power(w, 3 * k)))
  }

  lemma Quarters(x: seq<Complex>, s: real)
    requires |x| == 4 && (s == 1.0 || s == -1.0)
    ensures var i, j, y := Complex(0.0, s), Complex(0.0, -s), QuarterSums(x, s);
            && FourTerms(x[0], Mul(x[1], One), Mul(x[2], One), Mul(x[3], One)) == y[0]
            && FourTerms(x[0], Mul(x[1], i), Mul(x[2], MinusOne), Mul(x[3], j)) == y[1]
            && FourTerms(x[0], Mul(x[1], MinusOne), Mul(x[2], One), Mul(x[3], MinusOne)) == y[2]
            && FourTerms(x[0], Mul(x[1], j), Mul(x[2], MinusOne), Mul(x[3], i)) == y[3]
  {
    TimesUnits(x[0], s);
    TimesUnits(x[1], s);
    TimesUnits(x[2], s);
    TimesUnits(x[3], s);
    hide Mul;
  }

  lemma TimesUnits(a: Complex, s: real)
    ensures Mul(a, One) == a && Mul(a, MinusOne) == Complex(-a.re, -a.im)
    ensures Mul(a, Complex(0.0, s)) == Complex(-(s * a.im), s * a.re)
    ensures Mul(a, Complex(0.0, -s)) == Complex(s * a.im, -(s * a.re))
  {
  }

  ghost function FourTerms(a: Complex, b: Complex, c: Complex, d: Complex): Complex {
    Add(Mul(a, One), Add(b, Add(c, d)))
  }

  lemma SumOfFour(x: seq<Complex>, w: Complex, k: nat)
    requires |x| == 4
    ensures Dft(x, w, k) == TermsAt(x, w, k)
  {
    AddZero(Mul(x[3], Power(w, 3 * k)));
    hide Add, Mul;
    assert SumFrom(x, w, k, 4) == Zero;
    assert SumFrom(x, w, k, 3) == Mul(x[3], Power(w, 3 * k));
    assert SumFrom(x, w, k, 2) == Add(Mul(x[2], Power(w, 2 * k)), SumFrom(x, w, k, 3));
    assert SumFrom(x, w, k, 1) == Add(Mul(x[1], Power(w, 1 * k)), SumFrom(x, w, k, 2));
    assert SumFrom(x, w, k, 0) == Add(Mul(x[0], Power(w, 0 * k)), SumFrom(x, w, k, 1));
  }

  lemma PowersOfQuarter(s: real)
    requires s == 1.0 || s == -1.0
    ensures var w := Complex(0.0, s);
            && Power(w, 0) == One && Power(w, 1) == w && Power(w, 2) == MinusOne && Power(w, 3) == Complex(0.0, -s)
            && Power(w, 4) == One && Power(w, 6) == MinusOne && Power(w, 9) == w
  {
    var w, v := Complex(0.0, s), Complex(0.0, -s);
    TimesUnits(w, s);
    TimesUnits(One, s);
    TimesUnits(MinusOne, s);
    TimesUnits(v, s);
    MulCommutative(w, One);
    MulCommutative(w, MinusOne);
    MulCommutative(w, v);
    hide Mul;
    Unroll(w, One, w, MinusOne, v);
  }

  /** The powers of w, when those are its products with one, itself, and so on. */
  lemma Unroll(w: Complex, w0: Complex, w1: Complex, w2: Complex, w3: Complex)
    requires w0 == One && Mul(w, w0) == w1 && Mul(w, w1) == w2 && Mul(w, w2) == w3 && Mul(w, w3) == w0
    ensures Power(w, 0) == w0 && Power(w, 1) == w1 && Power(w, 2) == w2 && Power(w, 3) == w3
    ensures Power(w, 4) == w0 && Power(w, 6) == w2 && Power(w, 9) == w1
  {
    hide Mul;
    assert Power(w, 2) == Mul(w, Power(w, 1));
    assert Power(w, 3) == Mul(w, Power(w, 2)) && Power(w, 4) == Mul(w, Power(w, 3));
    assert Power(w, 5) == Mul(w, Power(w, 4)) && Power(w, 6) == Mul(w, Power(w, 5));
    assert Power(w, 7) == Mul(w, Power(w, 6)) && Power(w, 8) == Mul(w, Power(w, 7));
    assert Power(w, 9) == Mul(w, Power(w, 8));
  }

  /** Four points, coordinate by coordinate: for isign 1 the root is i, for isign -1 it is -i. */
  method FourPoints(data: array<real>, isign: int, sin: real -> real, pi: real)
    requires data.Length == 9 && (isign == 1 || isign == -1) && SineLaws(sin, pi)
    modifies data
    ensures FourSums(old(data[..]), data[..], isign as real)
  {
    ghost var d := data[..];
    assert Exp2(2) == 4;
    hide Points, DftAll, QuarterSums, SineLaws, Turn, Angle, FourSums;
    ghost var w := FFT(data, 4, isign, sin, pi, 2);
    QuarterRoot(sin, pi, isign);
    FourPointSum(Points(d, 4), isign as real);
    NinePlaces(d, data[..], isign as real);
  }

  lemma QuarterRoot(sin: real -> real, pi: real, isign: int)
    requires SineLaws(sin, pi) && (isign == 1 || isign == -1)
    ensures Turn(sin, Angle(pi, isign, 4)) == Complex(0.0, isign as real)
  {
    QuarterTurn(sin, pi);
    hide Turn;
    assert Angle(pi, isign, 4) == if isign == 1 then 0.5 * pi else -0.5 * pi;
  }

  /** What four points become, coordinate by coordinate; s is the sign. */
  ghost predicate FourSums(d: seq<real>, e: seq<real>, s: real) {
    && |d| == |e| == 9 && e[0] == d[0]
    && e[1] == d[1] + d[3] + d[5] + d[7] && e[2] == d[2] + d[4] + d[6] + d[8]
    && e[3] == d[1] - s * d[4] - d[5] + s * d[8] && e[4] == d[2] + s * d[3] - d[6] - s * d[7]
    && e[5] == d[1] - d[3] + d[5] - d[7] && e[6] == d[2] - d[4] + d[6] - d[8]
    && e[7] == d[1] + s * d[4] - d[5] - s * d[8] && e[8] == d[2] - s * d[3] - d[6] + s * d[7]
  }

  lemma NinePlaces(d: seq<real>, e: seq<real>, s: real)
    requires |d| == |e| == 9 && e[0] == d[0] && Points(e, 4) == QuarterSums(Points(d, 4), s)
    ensures FourSums(d, e, s)
  {
    var p, q := Points(e, 4), Points(d, 4);
    assert p[0] == Complex(e[1], e[2]) && p[1] == Complex(e[3], e[4]);
    assert p[2] == Complex(e[5], e[6]) && p[3] == Complex(e[7], e[8]);
    assert q[0] == Complex(d[1], d[2]) && q[1] == Complex(d[3], d[4]);
    assert q[2] == Complex(d[5], d[6]) && q[3] == Complex(d[7], d[8]);
    hide Points;
    var y := QuarterSums(q, s);
    assert p[0] == y[0] && p[1] == y[1] && p[2] == y[2] && p[3] == y[3];
  }

  /** The points 0, 1, 0, 0 become 1, i, -1, -i, and the other way round for isign -1. */
  method OnePointOfFour(isign: int, sin: real -> real, pi: real) returns (data: array<real>)
    requires (isign == 1 || isign == -1) && SineLaws(sin, pi)
    ensures data[..] == if isign == 1 then [0.0, 1.0, 0.0, 0.0, 1.0, -1.0, 0.0, 0.0, -1.0]
                        else [0.0, 1.0, 0.0, 0.0, -1.0, -1.0, 0.0, 0.0, 1.0]
  {
    data := new real[9] [0.0, 0.0, 0.0, 1.0, 0.0, 0.0, 0.0, 0.0, 0.0];
    assert data[..] == [0.0, 0.0, 0.0, 1.0, 0.0, 0.0, 0.0, 0.0, 0.0];
    FourPoints(data, isign, sin, pi);
    assert data[..] == [data[0], data[1], data[2], data[3], data[4], data[5], data[6], data[7], data[8]];
  }
}
