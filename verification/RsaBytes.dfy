/** Numbers in bytes with the high byte first, as signimage/source/common/rsa/src/rsa.c takes
    them into limbs and hands them out. */
module RsaBytes {
  import opened BigInt
  import opened Buffers
  import opened Bytes
  import opened Exponent
  import opened Limbs
  import opened Pkcs1

  // ------------------------------------------------------------------ values

  function FromBig(b: seq<Byte>): nat {
    FromLittle(Reversed(b))
  }

  lemma {:induction false} FromLittleJoin(a: seq<Byte>, b: seq<Byte>)
    ensures 0 <= Times(Exp256(|a|), FromLittle(b))
    ensures FromLittle(a + b) == FromLittle(a) + Times(Exp256(|a|), FromLittle(b))
  {
    hide Times;
    if a == [] {
      assert a + b == b;
      TimesUnits(FromLittle(b));
    } else {
      assert (a + b)[1..] == a[1..] + b && (a + b)[0] == a[0];
      FromLittleJoin(a[1..], b);
      Times256(Exp256(|a| - 1), FromLittle(b));
    }
  }

  /** The highest byte comes first. */
  lemma HighByteFirst(b: seq<Byte>, x: Byte)
    ensures FromBig([]) == 0 && FromBig(b + [x]) == 256 * FromBig(b) + x
  {
    assert Reversed([]) == [] && FromLittle([]) == 0;
    var r := Reversed(b + [x]);
    assert r[0] == x && r[1..] == Reversed(b);
  }

  lemma Times256(p: nat, v: nat)
    ensures Times(256 * p, v) == 256 * Times(p, v)
  {
  }

  /** Bytes of one number and one length are the same. */
  lemma {:induction false} FromLittleUnique(a: seq<Byte>, b: seq<Byte>)
    requires |a| == |b| && FromLittle(a) == FromLittle(b)
    ensures a == b
  {
    if a != [] {
      assert a[0] == FromLittle(a) % 256 && b[0] == FromLittle(b) % 256;
      FromLittleUnique(a[1..], b[1..]);
      assert a == [a[0]] + a[1..] && b == [b[0]] + b[1..];
    }
  }

  lemma FromBigUnique(a: seq<Byte>, b: seq<Byte>)
    requires |a| == |b| && FromBig(a) == FromBig(b)
    ensures a == b
  {
    FromLittleUnique(Reversed(a), Reversed(b));
    ReversedTwice(a);
    ReversedTwice(b);
  }

  lemma ReversedTwice(s: seq<Byte>)
    ensures Reversed(Reversed(s)) == s
  {
  }

  // ------------------------------------------------------------------ four bytes a limb

  lemma {:induction false} ExpOfLimbs(n: nat)
    ensures Exp256(4 * n) == BasePow(n)
  {
    if n > 0 {
      ExpOfLimbs(n - 1);
      assert Exp256(4 * n) == 256 * Exp256(4 * n - 1);
      assert Exp256(4 * n - 1) == 256 * Exp256(4 * n - 2);
      assert Exp256(4 * n - 2) == 256 * Exp256(4 * n - 3);
      assert Exp256(4 * n - 3) == 256 * Exp256(4 * n - 4);
    }
  }

  /** A limb as memory holds it. */
  function LimbOf(b: seq<Byte>): (l: Limb)
    requires |b| == 4
    ensures l == FromLittle(b)
  {
    FromLittleBound(b);
    ExpOfLimbs(1);
    FromLittle(b)
  }

  /** The limbs of 4 n bytes. */
  function LimbsOf(b: seq<Byte>, n: nat): (a: seq<Limb>)
    requires 4 * n <= |b|
    ensures |a| == n
  {
    if n == 0 then [] else LimbsOf(b, n - 1) + [LimbOf(b[4 * n - 4..4 * n])]
  }

  lemma {:induction false} LimbsValue(b: seq<Byte>, n: nat)
    requires 4 * n <= |b|
    ensures Val(LimbsOf(b, n)) == FromLittle(b[..4 * n])
  {
    hide Times, FromLittle;
    if n == 0 {
      EmptyValues();
      assert b[..0] == [];
    } else {
      LimbsValue(b, n - 1);
      var low, limb := b[..4 * n - 4], b[4 * n - 4..4 * n];
      assert b[..4 * n] == low + limb;
      FromLittleJoin(low, limb);
      ExpOfLimbs(n - 1);
      ValAppend(LimbsOf(b, n - 1), LimbOf(limb));
      TimesAssoc(LimbOf(limb), BasePow(n - 1), 0);
    }
  }

  /** The limbs of a number in bytes. */
  function BigLimbs(b: seq<Byte>): (a: seq<Limb>)
    ensures |a| == |b| / 4
  {
    LimbsOf(Reversed(b), |b| / 4)
  }

  lemma {:induction false} LimbsPrefix(a: seq<Byte>, b: seq<Byte>, n: nat)
    requires 4 * n <= |a|
    ensures LimbsOf(a + b, n) == LimbsOf(a, n)
  {
    if n > 0 {
      LimbsPrefix(a, b, n - 1);
      InFront(a, b, 4 * n - 4, 4 * n);
    }
  }

  lemma EmptyValues()
    ensures FromLittle([]) == 0 && Val([]) == 0
  {
  }

  /** The bytes of limbs. */
  function BytesOf(a: seq<Limb>): (b: seq<Byte>)
    ensures |b| == 4 * |a|
  {
    if a == [] then [] else BytesOf(a[..|a| - 1]) + LittleEndian(a[|a| - 1], 4)
  }

  lemma {:induction false} BytesValue(a: seq<Limb>)
    ensures FromLittle(BytesOf(a)) == Val(a)
  {
    hide Times, FromLittle;
    if a == [] {
      EmptyValues();
    } else {
      var low, limb := a[..|a| - 1], a[|a| - 1];
      BytesValue(low);
      LimbBack(limb);
      FromLittleJoin(BytesOf(low), LittleEndian(limb, 4));
      ExpOfLimbs(|low|);
      TimesAssoc(limb, BasePow(|low|), 0);
    }
  }

  lemma LimbBack(l: Limb)
    ensures FromLittle(LittleEndian(l, 4)) == l
  {
    ExpOfLimbs(1);
    ReadBack(l, 4);
  }

  // ------------------------------------------------------------------ taking in and handing out

  /** SetParameter_int */
  method SetParameterInt(out: SBigInt, bytes: array<Byte>, n: nat)
    requires out.v.Length == MaxLen && 1 <= n <= MaxLen && 4 * n <= bytes.Length
    modifies out`len, out.v
    ensures out.Valid() && out.len == n && out.v[..n] == LimbsOf(bytes[..], n)
  {
    var i := 0;
    while i < n
      invariant i <= n && out.v[..i] == LimbsOf(bytes[..], i)
    {
      ghost var low := out.v[..i];
      out.v[i] := LimbOf(bytes[4 * i..4 * i + 4]);
      assert bytes[..][4 * i..4 * i + 4] == bytes[4 * i..4 * i + 4];
      assert out.v[..i + 1] == low + [out.v[i]];
      i := i + 1;
    }
    ClearFrom(out, n);
    out.len := n;
  }

  /** SetParameter_char_openssl: the bytes are turned round, taken in, and turned back. */
  method SetParameterChar(out: SBigInt, str: array<Byte>, strLen: nat)
    requires out.v.Length == MaxLen && 4 <= strLen <= str.Length && strLen % 4 == 0 && strLen / 4 <= MaxLen
    modifies out`len, out.v, str
    ensures out.Valid() && out.len == strLen / 4 && out.Value() == FromBig(old(str[..strLen]))
    ensures out.v[..out.len] == BigLimbs(old(str[..strLen]))
    ensures str[..] == old(str[..])
  {
    hide Val, FromLittle, Times, Reversed, LimbsOf;
    ghost var s, rest := str[..strLen], str[strLen..];
    assert str[..] == s + rest;
    InvertChar(str, strLen);
    ghost var turned := str[..];
    Parts(Reversed(s), rest);
    assert str[..strLen] == turned[..strLen] && str[strLen..] == turned[strLen..];
    SetParameterInt(out, str, strLen / 4);
    LimbsPrefix(Reversed(s), rest, strLen / 4);
    BigLimbsValue(s);
    InvertChar(str, strLen);
    ReversedTwice(s);
  }

  // ------------------------------------------------------------------ the highest bytes

  /** The highest bytes weigh as much as all that follow. */
  lemma BigJoin(a: seq<Byte>, b: seq<Byte>)
    ensures FromBig(a + b) == FromBig(b) + Times(Exp256(|b|), FromBig(a))
  {
    hide Times, FromLittle;
    ReversedJoin(a, b);
    FromLittleJoin(Reversed(b), Reversed(a));
  }

  lemma ReversedJoin(a: seq<Byte>, b: seq<Byte>)
    ensures Reversed(a + b) == Reversed(b) + Reversed(a)
  {
    var r, s := Reversed(a + b), Reversed(b) + Reversed(a);
    assert |r| == |s|;
    forall i | 0 <= i < |r| ensures r[i] == s[i] {
    }
  }

  lemma BigBound(b: seq<Byte>)
    requires |b| % 4 == 0
    ensures FromBig(b) < BasePow(|b| / 4)
  {
    hide FromLittle, Reversed, Exp256, BasePow;
    FromLittleBound(Reversed(b));
    ExpOfLimbs(|b| / 4);
  }

  lemma {:induction false} AboveZero(b: seq<Byte>, i: nat)
    requires i < |b| && b[i] > 0
    ensures FromLittle(b) > 0
  {
    if i > 0 {
      AboveZero(b[1..], i - 1);
    }
  }

  /** A number with something in its first four bytes. */
  lemma HighLimb(b: seq<Byte>, i: nat)
    requires i < 4 <= |b| && |b| % 4 == 0 && b[i] > 0
    ensures FromBig(b) >= BasePow(|b| / 4 - 1)
  {
    var high, low := b[..4], b[4..];
    assert b == high + low;
    AboveZero(Reversed(high), 3 - i);
    BigJoin(high, low);
    ExpOfLimbs(|b| / 4 - 1);
    TimesGrows(1, FromBig(high), Exp256(|low|));
    TimesUnits(Exp256(|low|));
    hide Times, FromBig;
  }

  lemma {:induction false} NothingIn(b: seq<Byte>)
    requires forall i :: 0 <= i < |b| ==> b[i] == 0
    ensures FromLittle(b) == 0
  {
    if b != [] {
      NothingIn(b[1..]);
    }
  }

  // ------------------------------------------------------------------ the exponent

  /** The exponent that is used for these bytes. */
  ghost function UsedExponent(e: seq<Byte>): nat
    requires 4 <= |e|
  {
    Effective(BigLimbs(e))
  }

  /** Something in the first four bytes, or the highest bit of the fifth. */
  ghost predicate WholeExponent(e: seq<Byte>)
    requires 4 <= |e|
  {
    e[..4] != Zeros(4) || (|e| > 4 && e[4] >= 0x80)
  }

  /** Exactly when that is the exponent that the bytes say. */
  lemma UsedExponentIs(e: seq<Byte>)
    requires 4 <= |e| && |e| % 4 == 0
    ensures UsedExponent(e) == FromBig(e) <==> WholeExponent(e)
  {
    hide Val, FromLittle, Times, Effective, BigLimbs;
    var n, a := |e| / 4, BigLimbs(e);
    BigLimbsValue(e);
    EffectiveIsValue(a);
    BigLimbAt(e, n - 1);
    assert e[..4] == [e[0], e[1], e[2], e[3]] && Zeros(4) == [0, 0, 0, 0];
    if n > 1 {
      BigLimbAt(e, n - 2);
    }
  }

  lemma BigLimbsValue(b: seq<Byte>)
    requires |b| % 4 == 0
    ensures Val(BigLimbs(b)) == FromBig(b)
  {
    var r := Reversed(b);
    LimbsValue(r, |b| / 4);
    assert r[..|b|] == r;
    hide Val, FromLittle, Times, LimbsOf, Reversed;
  }

  lemma BigLimbAt(b: seq<Byte>, j: nat)
    requires |b| % 4 == 0 && j < |b| / 4
    ensures var k, l := |b| - 4 * j - 4, BigLimbs(b)[j];
      && (l == 0 <==> b[k] == 0 && b[k + 1] == 0 && b[k + 2] == 0 && b[k + 3] == 0)
      && (l >= Half <==> b[k] >= 0x80)
  {
    hide FromLittle;
    var r := Reversed(b);
    LimbsAt(r, |b| / 4, j);
    var four := r[4 * j..4 * j + 4];
    LimbParts(four);
    var k := |b| - 4 * j - 4;
    assert four == [b[k + 3], b[k + 2], b[k + 1], b[k]];
  }

  lemma {:induction false} LimbsAt(b: seq<Byte>, n: nat, j: nat)
    requires 4 * n <= |b| && j < n
    ensures LimbsOf(b, n)[j] == LimbOf(b[4 * j..4 * j + 4])
  {
    if j < n - 1 {
      LimbsAt(b, n - 1, j);
    }
  }

  lemma LimbParts(b: seq<Byte>)
    requires |b| == 4
    ensures LimbOf(b) == 0 <==> b[0] == 0 && b[1] == 0 && b[2] == 0 && b[3] == 0
    ensures LimbOf(b) >= Half <==> b[3] >= 0x80
  {
    assert FromLittle(b) == b[0] as int + 256 * FromLittle(b[1..]);
    assert FromLittle(b[1..]) == b[1] as int + 256 * FromLittle(b[2..]);
    assert FromLittle(b[2..]) == b[2] as int + 256 * FromLittle(b[3..]);
    assert FromLittle(b[3..]) == b[3];
    hide FromLittle;
  }
}
