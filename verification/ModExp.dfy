/** RsaTrans of signimage/source/common/rsa/src/rsa.c: a power modulo a number, bit by bit and
    limb by limb. */
module ModExp {
  import opened BigInt
  import opened BigMod
  import opened Exponent
  import opened Lengths
  import opened Limbs
  import opened Residues

  /** Different memory. */
  ghost predicate Clear(x: SBigInt, y: SBigInt) {
    x != y && x.v != y.v
  }

  // ------------------------------------------------------------------ a product

  /** Lines 489-491: the number one limb up. */
  method UpOneLimb(t: SBigInt)
    requires t.Valid() && t.len < MaxLen
    modifies t`len, t.v
    ensures t.Valid() && t.len == old(t.len) + 1 && t.Value() == Base * old(t.Value())
  {
    hide Val, Times;
    ghost var s := t.v[..t.len];
    MoveUp(t);
    t.v[0] := 0;
    t.len := t.len + 1;
    assert t.v[..t.len] == [0] + s;
    ValPrepend(0, s);
  }

  method MoveUp(t: SBigInt)
    requires t.Valid() && t.len < MaxLen
    modifies t.v
    ensures forall i :: 0 < i <= t.len ==> t.v[i] == old(t.v[i - 1])
    ensures forall i :: t.len < i < MaxLen ==> t.v[i] == 0
  {
    ghost var s := t.v[..];
    var j := t.len;
    while j > 0
      invariant 0 <= j <= t.len
      invariant forall i :: j < i <= t.len ==> t.v[i] == s[i - 1]
      invariant forall i :: 0 <= i <= j && i < t.len ==> t.v[i] == s[i]
      invariant forall i :: t.len < i < MaxLen ==> t.v[i] == 0
    {
      t.v[j] := t.v[j - 1];
      j := j - 1;
    }
  }

  /** Lines 489-495: the number one limb up, and a partial product added to it. */
  method Accumulate(t: SBigInt, u: SBigInt, x: SBigInt, l: Limb)
    requires t.Valid() && u.v.Length == MaxLen && x.Valid() && x.len < MaxLen - 1 && t.len < MaxLen - 1
    requires Clear(t, x) && Clear(u, x) && Clear(u, t)
    modifies t`len, t.v, u`len, u.v
    ensures t.Valid() && t.Value() == Base * old(t.Value()) + AsNat(x.Value(), l)
    ensures t.len == SumLen(old(t.len), x.len, t.Value())
  {
    ValBound(t.v[..t.len]);
    ValBound(x.v[..x.len]);
    hide Val, Times, SumLen;
    ghost var tLen, tv := t.len, t.Value();
    UpOneLimb(t);
    MulLong(u, x, l);
    ghost var uLen := u.len;
    AddBigInt(t, t, u);
    ValBound(t.v[..t.len]);
    SumLenIs(tLen, x.len, tv, x.Value(), l, uLen, t.Value(), t.len);
  }

  /** The product so far is x times h; l is the next limb. */
  method MulRound(t: SBigInt, u: SBigInt, x: SBigInt, n: SBigInt, l: Limb, ghost h: nat) returns (ok: bool)
    requires t.Valid() && u.v.Length == MaxLen && x.Valid() && Divisor(n) && n.Value() > 0
    requires x.len <= n.len <= MaxLen - 2 && t.len <= n.len
    requires Clear(t, x) && Clear(t, n) && Clear(u, x) && Clear(u, n) && Clear(u, t)
    requires t.Value() == Rem(AsNat(x.Value(), h), n.Value())
    modifies t`len, t.v, u`len, u.v
    ensures ok ==> t.Valid() && t.len <= n.len && t.Value() == Rem(AsNat(x.Value(), l + Base * h), n.Value())
    ensures ok ==> t.len == NextLen(x.Value(), x.len, n.Value(), n.len, old(t.Value()), old(t.len), l)
    ensures var idle := old(t.Value()) == 0 && AsNat(x.Value(), l) == 0;
      ok <==> idle ==> Larger(old(t.len) + 1, x.len) <= n.len
  {
    hide Val, Times, Rem, AsNat;
    PartialNext(x.Value(), h, l, t.Value(), n.Value());
    Accumulate(t, u, x, l);
    ok := ModBigInt(t, t, n);
  }

  /** The product with the limbs of y from the j-th on. */
  ghost predicate ProductSoFar(t: SBigInt, x: SBigInt, y: SBigInt, n: SBigInt, j: nat)
    requires x.Valid() && y.Valid() && j <= y.len && Divisor(n) && 0 < n.Value()
    reads t, t.v, x, x.v, y, y.v, n, n.v
  {
    && t.Valid() && t.len <= n.len && t.Value() == Rem(AsNat(x.Value(), Val(y.v[..y.len][j..])), n.Value())
    && t.len == LenAt(x.Value(), x.len, y.v[..y.len], n.Value(), n.len, j)
  }

  method NextLimb(t: SBigInt, u: SBigInt, x: SBigInt, y: SBigInt, n: SBigInt, j: nat) returns (ok: bool)
    requires u.v.Length == MaxLen && x.Valid() && y.Valid() && Divisor(n) && n.Value() > 0
    requires x.len <= n.len <= MaxLen - 2 && j < y.len && ProductSoFar(t, x, y, n, j + 1)
    requires Clear(t, x) && Clear(t, y) && Clear(t, n) && Clear(u, x) && Clear(u, y) && Clear(u, n) && Clear(u, t)
    modifies t`len, t.v, u`len, u.v
    ensures ok <==> Inside(x.Value(), x.len, y.v[..y.len], n.Value(), n.len, j)
    ensures ok ==> ProductSoFar(t, x, y, n, j)
  {
    ghost var yl := y.v[..y.len];
    HighNext(yl, j);
    assert yl[j] == y.v[j];
    LenAtNext(x.Value(), x.len, yl, n.Value(), n.len, j);
    hide Val, Times, Rem, AsNat, LenAt, NextLen, Inside;
    ok := MulRound(t, u, x, n, y.v[j], Val(yl[j + 1..]));
  }

  /** The highest limb. */
  method FirstLimb(t: SBigInt, x: SBigInt, y: SBigInt, n: SBigInt) returns (ok: bool)
    requires t.v.Length == MaxLen && x.Valid() && y.Valid() && Divisor(n) && n.Value() > 0
    requires x.len <= n.len <= MaxLen - 2 && Clear(t, x) && Clear(t, y) && Clear(t, n)
    modifies t`len, t.v
    ensures ok && Inside(x.Value(), x.len, y.v[..y.len], n.Value(), n.len, y.len - 1)
    ensures ProductSoFar(t, x, y, n, y.len - 1)
  {
    ghost var yl := y.v[..y.len];
    assert yl[y.len - 1] == y.v[y.len - 1];
    FirstLen(x.Value(), x.len, yl, n.Value(), n.len);
    hide Val, Times, Rem, LenAt, SumLen, Inside;
    MulLong(t, x, y.v[y.len - 1]);
    FirstSum(t.v[..t.len], x.len);
    ok := ModBigInt(t, t, n);
  }

  /** The first partial product is added to nothing. */
  lemma FirstSum(t: seq<Limb>, l: nat)
    requires 0 < l <= |t| <= l + 1 && (|t| > l ==> |t| == 1 || t[|t| - 1] != 0)
    ensures |t| == SumLen(l - 1, l, Val(t)) && (|t| > l ==> Val(t) > 0)
  {
    TopLimb(t);
    ValBound(t);
    hide Val;
  }

  /** Lines 486-497 and 500-511: x times y modulo n, from the highest limb of y down. */
  method MulMod(t: SBigInt, u: SBigInt, x: SBigInt, y: SBigInt, n: SBigInt) returns (ok: bool)
    requires t.v.Length == u.v.Length == MaxLen && x.Valid() && y.Valid() && Divisor(n) && n.Value() > 0
    requires x.len <= n.len <= MaxLen - 2 && y.len <= n.len
    requires Clear(t, x) && Clear(t, y) && Clear(t, n) && Clear(u, x) && Clear(u, y) && Clear(u, n) && Clear(u, t)
    modifies t`len, t.v, u`len, u.v
    ensures ok <==> Flows(x.Value(), y.v[..y.len], n.Value(), n.len - x.len + 2)
    ensures ok ==> t.Valid() && t.len <= n.len && t.Value() == Rem(AsNat(x.Value(), y.Value()), n.Value())
    ensures ok ==> t.len == LenAt(x.Value(), x.len, y.v[..y.len], n.Value(), n.len, 0)
  {
    hide Val, Times, Rem, AsNat, ProductSoFar, LenAt, Inside, Flows;
    ghost var xv, l, yl, nv, len := x.Value(), x.len, y.v[..y.len], n.Value(), n.len;
    FlowsFits(xv, l, yl, nv, len);
    ok := FirstLimb(t, x, y, n);
    AllInsideNext(xv, l, yl, nv, len, y.len - 1);
    assert AllInside(xv, l, yl, nv, len, y.len);
    var k := 1;
    while k < y.len && ok
      invariant 1 <= k <= y.len && (ok ==> ProductSoFar(t, x, y, n, y.len - k))
      invariant ok <==> AllInside(xv, l, yl, nv, len, |yl| - k)
    {
      AllInsideNext(xv, l, yl, nv, len, y.len - k - 1);
      ok := NextLimb(t, u, x, y, n, y.len - k - 1);
      k := k + 1;
    }
    if ok {
      AllLimbs(t, x, y, n);
    }
  }

  lemma AllLimbs(t: SBigInt, x: SBigInt, y: SBigInt, n: SBigInt)
    requires x.Valid() && y.Valid() && Divisor(n) && 0 < n.Value() && ProductSoFar(t, x, y, n, 0)
    ensures t.Valid() && t.len <= n.len && t.Value() == Rem(AsNat(x.Value(), y.Value()), n.Value())
    ensures t.len == LenAt(x.Value(), x.len, y.v[..y.len], n.Value(), n.len, 0)
  {
    assert y.v[..y.len][0..] == y.v[..y.len];
  }

  // ------------------------------------------------------------------ the power

  /** Lines 478-483: how many bits there are. */
  method BitLength(e: SBigInt) returns (k: nat)
    requires e.Valid()
    ensures k == BitCount(e.v[..e.len]) <= 32 * e.len
  {
    BitCountFits(e.v[..e.len]);
    k := e.len * 32 - 32;
    var num: nat := e.v[e.len - 1];
    while num != 0
      invariant k + Bits(num) == BitCount(e.v[..e.len])
    {
      num := num / 2;
      k := k + 1;
    }
  }

  /** The base and the modulus, as they are recorded. */
  ghost function Setup(x: SBigInt, n: SBigInt): (p: Raising)
    requires x.Valid() && Divisor(n)
    reads x, x.v, n, n.v
    ensures p.Proper() && (x.len <= n.len && x.Value() < n.Value() ==> p.Fitting())
  {
    ValBound(x.v[..x.len]);
    ValBound(n.v[..n.len]);
    LimbOnTop(n.v[..n.len]);
    Raising(x.Value(), x.len, n.Value(), n.len)
  }

  lemma LimbOnTop(a: seq<Limb>)
    requires a != [] && a[|a| - 1] != 0
    ensures Val(a) > 0
  {
    TopLimb(a);
  }

  /** The power, with the limbs it is recorded with. */
  ghost predicate At(out: SBigInt, p: Raising, g: nat)
    requires p.Proper()
    reads out, out.v
  {
    out.Valid() && out.len <= p.len && out.Value() == p.Residue(g) && out.len == p.RunLen(g)
  }

  ghost predicate Modulus(n: SBigInt, p: Raising)
    reads n, n.v
  {
    Divisor(n) && n.len <= MaxLen - 2 && p.Proper() && p.n == n.Value() && p.len == n.len
  }

  /** p is what base and modulus say. */
  ghost predicate Ready(x: SBigInt, n: SBigInt, p: Raising)
    reads x, x.v, n, n.v
  {
    Modulus(n, p) && x.Valid() && x.len <= n.len && p.x == x.Value() && p.l == x.len
  }

  /** The product of a and out, back in out. The two temporaries may hold anything before. */
  method MulInto(out: SBigInt, a: SBigInt, n: SBigInt, ghost q: Raising, ghost y: seq<Limb>) returns (ok: bool)
    requires a.Valid() && out.Valid() && Divisor(n) && a.len <= n.len <= MaxLen - 2 && out.len <= n.len
    requires (a == out || Clear(out, a)) && Clear(out, n)
    requires q.Proper() && q == Raising(a.Value(), a.len, n.Value(), n.len) && y == out.v[..out.len]
    modifies out`len, out.v
    ensures ok <==> Flows(q.x, y, q.n, q.Gap(q.l))
    ensures ok ==> out.Valid() && out.len <= q.len && out.Value() == Rem(AsNat(q.x, Val(y)), q.n)
    ensures ok ==> out.len == LenAt(q.x, q.l, y, q.n, q.len, 0)
  {
    hide Val, Rem, AsNat, Flows, LenAt;
    var t := new SBigInt();
    var u := new SBigInt();
    ok := MulMod(t, u, a, out, n);
    if ok {
      Mov(out, t);
    }
  }

  /** Lines 485-498: the square. */
  method Square(out: SBigInt, n: SBigInt, ghost p: Raising, ghost h: nat) returns (ok: bool)
    requires Clear(out, n) && Modulus(n, p) && At(out, p, h) && h > 0
    modifies out`len, out.v
    ensures ok <==> p.StepRuns(2 * h)
    ensures ok ==> At(out, p, 2 * h)
  {
    SquareGives(p, h);
    RecordedIs(out, p, h);
    hide Val, Times, Rem, AsNat, PowMod, Flows, LenAt, Raising.Residue, Raising.RunLen, Raising.SquareLen,
         Raising.Squared,
         Raising.Recorded, Raising.StepRuns;
    ok := MulInto(out, out, n, p.Power(h), p.Recorded(h));
  }

  lemma RecordedIs(out: SBigInt, p: Raising, g: nat)
    requires p.Proper() && At(out, p, g)
    ensures out.v[..out.len] == p.Recorded(g)
  {
    LimbsKnown(out.v[..out.len]);
  }

  /** Lines 499-512: the base comes in. */
  method Multiply(out: SBigInt, x: SBigInt, n: SBigInt, ghost p: Raising, ghost h: nat) returns (ok: bool)
    requires Clear(out, x) && Clear(out, n) && Ready(x, n, p) && h > 0 && At(out, p, 2 * h) && p.StepRuns(2 * h)
    modifies out`len, out.v
    ensures ok <==> p.StepRuns(2 * h + 1)
    ensures ok ==> At(out, p, 2 * h + 1)
  {
    MultiplyGives(p, h);
    SquaredIs(out, p, h);
    hide Val, Times, Rem, AsNat, PowMod, Flows, LenAt, Raising.Residue, Raising.RunLen, Raising.SquareLen,
         Raising.Squared,
         Raising.Recorded, Raising.StepRuns;
    ok := MulInto(out, x, n, p, p.Squared(h));
  }

  lemma SquaredIs(out: SBigInt, p: Raising, h: nat)
    requires p.Proper() && h > 0 && At(out, p, 2 * h)
    ensures out.v[..out.len] == p.Squared(h)
  {
    LimbsKnown(out.v[..out.len]);
    SquareGives(p, h);
  }

  /** Lines 485-512: one bit of the exponent. */
  method BitRound(out: SBigInt, x: SBigInt, n: SBigInt, bit: nat, ghost p: Raising, ghost h: nat) returns (ok: bool)
    requires Clear(out, x) && Clear(out, n) && Ready(x, n, p) && At(out, p, h) && h > 0 && bit <= 1
    modifies out`len, out.v
    ensures ok <==> p.StepRuns(2 * h + bit)
    ensures ok ==> At(out, p, 2 * h + bit)
  {
    SquareFirst(p, h);
    hide *;
    ok := Square(out, n, p, h);
    if ok && bit == 1 {
      ok := Multiply(out, x, n, p, h);
    }
  }

  method Mov(out: SBigInt, a: SBigInt)
    requires out.v.Length == MaxLen && a.Valid() && out != a && out.v != a.v
    modifies out`len, out.v
    ensures out.Valid() && out.len == a.len && out.Value() == a.Value()
  {
    MovBigInt(out, a);
    assert out.v[..out.len] == a.v[..a.len];
  }

  ghost predicate Separate(out: SBigInt, x: SBigInt, e: SBigInt, n: SBigInt) {
    Clear(out, x) && Clear(out, e) && Clear(out, n)
  }

  /** What a run reads: the numbers, the bits el of the exponent, and p in short. */
  ghost predicate Given(x: SBigInt, e: SBigInt, n: SBigInt, el: seq<Limb>, p: Raising)
    reads x, x.v, e, e.v, n, n.v
  {
    Ready(x, n, p) && e.Valid() && e.v[..e.len] == el
  }

  lemma GivenMeans(out: SBigInt, x: SBigInt, e: SBigInt, n: SBigInt, el: seq<Limb>, p: Raising)
    requires Given(x, e, n, el, p) && Separate(out, x, e, n)
    ensures p.Proper() && Ready(x, n, p) && Clear(out, x) && Clear(out, n)
    ensures e.len <= e.v.Length && el == e.v[..e.len]
  {
  }

  /** The i-th bit. */
  method NextBit(out: SBigInt, x: SBigInt, e: SBigInt, n: SBigInt, i: nat,
                 ghost p: Raising, ghost el: seq<Limb>, ghost k: nat) returns (ok: bool)
    requires Given(x, e, n, el, p) && Separate(out, x, e, n)
    requires i + 1 < k <= 32 * |el| && At(out, p, Read(el, k, i + 1)) && p.Runs(Read(el, k, i + 1))
    modifies out`len, out.v
    ensures ok <==> p.Runs(Read(el, k, i))
    ensures ok ==> At(out, p, Read(el, k, i))
  {
    hide *;
    GivenMeans(out, x, e, n, el, p);
    RoundsNext(p, el, k, i);
    ReadNext(el, k, i);
    assert el[i / 32] == e.v[i / 32];
    ok := BitRound(out, x, n, Shr(e.v[i / 32], i % 32) % 2, p, Read(el, k, i + 1));
  }

  lemma ReadNext(e: seq<Limb>, k: nat, i: nat)
    requires i + 1 < k <= 32 * |e|
    ensures Read(e, k, i) == 2 * Read(e, k, i + 1) + Shr(e[i / 32], i % 32) % 2
  {
  }

  /** All rounds for the bits from the i-th on. */
  lemma RoundsNext(p: Raising, e: seq<Limb>, k: nat, i: nat)
    requires i + 1 < k <= 32 * |e| && p.Proper()
    ensures p.Runs(Read(e, k, i)) <==> p.Runs(Read(e, k, i + 1)) && p.StepRuns(Read(e, k, i))
  {
    ReadNext(e, k, i);
    assert Read(e, k, i) / 2 == Read(e, k, i + 1);
    hide Raising.StepRuns;
  }

  /** Rounds that do not stay inside are not made up for. */
  lemma {:induction false} RoundsBefore(p: Raising, e: seq<Limb>, k: nat, i: nat)
    requires i < k <= 32 * |e| && p.Proper() && p.Runs(Read(e, k, 0))
    ensures p.Runs(Read(e, k, i))
  {
    hide Raising.Runs, Raising.StepRuns, Read;
    if i > 0 {
      RoundsBefore(p, e, k, i - 1);
      RoundsNext(p, e, k, i - 1);
    }
  }

  /** Lines 485-512: the bits below the highest. */
  method Rounds(out: SBigInt, x: SBigInt, e: SBigInt, n: SBigInt, k: nat, ghost p: Raising, ghost el: seq<Limb>)
    returns (ok: bool)
    requires Given(x, e, n, el, p) && Separate(out, x, e, n)
    requires 1 < k <= 32 * |el| && At(out, p, 1)
    modifies out`len, out.v
    ensures ok <==> p.Runs(Read(el, k, 0))
    ensures ok ==> At(out, p, Read(el, k, 0))
  {
    hide *;
    FirstRuns(out, x, e, n, el, p, k);
    var i := k as int - 2;
    ok := true;
    while i >= 0 && ok
      invariant -1 <= i <= k - 2 && Given(x, e, n, el, p)
      invariant ok <==> p.Runs(Read(el, k, i + 1))
      invariant ok ==> At(out, p, Read(el, k, i + 1))
    {
      ok := NextBit(out, x, e, n, i, p, el, k);
      i := i - 1;
    }
    if !ok {
      RoundsStopped(p, el, k, i + 1);
    }
  }

  lemma FirstRuns(out: SBigInt, x: SBigInt, e: SBigInt, n: SBigInt, el: seq<Limb>, p: Raising, k: nat)
    requires Given(x, e, n, el, p) && Separate(out, x, e, n) && 1 < k <= 32 * |el|
    ensures p.Proper() && Read(el, k, k - 1) == 1 && p.Runs(1)
    ensures out != x && out != e && out != n && out.v != x.v && out.v != e.v && out.v != n.v
  {
  }

  lemma RoundsStopped(p: Raising, e: seq<Limb>, k: nat, i: nat)
    requires i < k <= 32 * |e| && p.Proper() && !p.Runs(Read(e, k, i))
    ensures !p.Runs(Read(e, k, 0))
  {
    hide Read, Raising.Runs;
    if p.Runs(Read(e, k, 0)) {
      RoundsBefore(p, e, k, i);
    }
  }

  lemma FirstPower(out: SBigInt, x: SBigInt, n: SBigInt)
    requires x.Valid() && Divisor(n) && x.len <= n.len && x.Value() < n.Value()
    requires out.Valid() && out.len == x.len && out.Value() == x.Value()
    ensures At(out, Setup(x, n), 1)
  {
    hide Val, Times, Rem, Pow;
    PowOne(x.Value());
    RemSmall(x.Value(), n.Value());
  }

  /** RsaTrans: out becomes x to the e modulo n, in as many limbs as it is recorded with; exactly
      when every round stays inside the arrays. */
  method RsaTrans(out: SBigInt, x: SBigInt, e: SBigInt, n: SBigInt) returns (ok: bool)
    requires out.v.Length == MaxLen && x.Valid() && e.Valid() && Divisor(n)
    requires x.len <= n.len <= MaxLen - 2 && x.Value() < n.Value()
    requires Clear(out, x) && Clear(out, e) && Clear(out, n)
    modifies out`len, out.v
    ensures ok <==> Setup(x, n).Runs(Effective(e.v[..e.len]))
    ensures ok ==> At(out, Setup(x, n), Effective(e.v[..e.len]))
  {
    ghost var el := e.v[..e.len];
    ReadIsEffective(el);
    var k := BitLength(e);
    hide Val, Read, At, Raising.StepRuns, Setup, Effective, BitCount;
    Mov(out, x);
    FirstPower(out, x, n);
    ok := true;
    if k > 1 {
      ok := Rounds(out, x, e, n, k, Setup(x, n), el);
    } else if k == 1 {
      LastRead(el);
    }
  }

  lemma LastRead(e: seq<Limb>)
    requires e != []
    ensures Read(e, 1, 0) == 1
  {
  }
}
