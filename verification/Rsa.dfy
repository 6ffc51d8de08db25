/** Private encryption and public decryption of signimage/source/common/rsa/src/rsa.c. */
module Rsa {
  import opened Arithmetic
  import opened BigInt
  import opened BigMod
  import opened Buffers
  import opened Bytes
  import opened Exponent
  import opened Lengths
  import opened Limbs
  import opened ModExp
  import opened Pkcs1
  import opened Residues
  import opened RsaBytes
  import opened RsaKeys

  /** Unspecified: a division by a modulus with a zero limb on top, or a result that depends on
      memory that nobody wrote or that lies outside an array. */
  datatype Outcome = Done | Refused | Unspecified

  /** The limbs of a number, taken from a copy of its bytes; top: there is no zero limb on top. */
  method TakeIn(bytes: seq<Byte>) returns (x: SBigInt, top: bool)
    requires 4 <= |bytes| <= 4 * MaxLen && |bytes| % 4 == 0
    ensures fresh(x) && fresh(x.v) && x.Valid() && 4 * x.len == |bytes| && x.Value() == FromBig(bytes)
    ensures x.v[..x.len] == BigLimbs(bytes)
    ensures top <==> x.v[x.len - 1] != 0
    ensures top <==> FromBig(bytes) >= BasePow(|bytes| / 4 - 1)
  {
    hide BigLimbs, FromBig;
    x := new SBigInt();
    var str := new Byte[|bytes|](i requires 0 <= i < |bytes| => bytes[i]);
    assert str[..|bytes|] == bytes;
    SetParameterChar(x, str, |bytes|);
    top := x.v[x.len - 1] != 0;
    TopLimb(x.v[..x.len]);
  }

  /** Lines 576-577 and 594-601: the limbs copied and turned round. */
  method HandOut(to: array<Byte>, x: SBigInt, k: nat)
    requires x.Valid() && k == 4 * x.len <= to.Length
    modifies to
    ensures FromBig(to[..k]) == x.Value() && to[k..] == old(to[k..])
  {
    ghost var rest, a := to[k..], x.v[..x.len];
    hide Val, FromLittle, Times, Reversed, BytesOf, LittleEndian;
    CopyLimbs(to, x);
    assert to[..k] == BytesOf(a) && to[k..] == rest;
    InvertChar(to, k);
    Parts(Reversed(BytesOf(a)), rest);
    ReversedTwice(BytesOf(a));
    BytesValue(a);
  }

  method CopyLimbs(to: array<Byte>, x: SBigInt)
    requires x.Valid() && 4 * x.len <= to.Length
    modifies to
    ensures to[..4 * x.len] == BytesOf(x.v[..x.len]) && to[4 * x.len..] == old(to[4 * x.len..])
  {
    hide LittleEndian;
    ghost var a := x.v[..x.len];
    var i := 0;
    while i < x.len
      invariant i <= x.len && to[..4 * i] == BytesOf(a[..i])
      invariant to[4 * x.len..] == old(to[4 * x.len..])
    {
      assert a[..i + 1][..i] == a[..i] && a[i] == x.v[i];
      CopyLimb(to, 4 * i, x.v[i]);
      i := i + 1;
    }
    assert a[..i] == a;
  }

  method CopyLimb(to: array<Byte>, at: nat, l: Limb)
    requires at + 4 <= to.Length
    modifies to
    ensures to[..at + 4] == old(to[..at]) + LittleEndian(l, 4) && to[at + 4..] == old(to[at + 4..])
  {
    var b := LittleEndian(l, 4);
    to[at] := b[0];
    to[at + 1] := b[1];
    to[at + 2] := b[2];
    to[at + 3] := b[3];
    assert to[at..at + 4] == b;
    assert to[..at + 4] == to[..at] + to[at..at + 4];
  }

  // ------------------------------------------------------------------ the two operations

  lemma SameLengths(a: seq<Limb>, b: seq<Limb>)
    requires |a| == |b|
    ensures Compared(a, b) >= 0 <==> Val(a) >= Val(b)
  {
  }

  /** A base in as many limbs as the modulus has. */
  ghost function Whole(x: nat, n: nat, len: nat): (p: Raising)
    requires n > 0 && len > 0
    ensures p.Proper()
  {
    Raising(x, len, n, len)
  }

  /** The modulus has len limbs, all rounds stay inside the arrays, and the power is recorded
      with len limbs. */
  ghost predicate Completes(x: nat, e: nat, n: nat, len: nat)
    requires n > 0 && len > 0
  {
    BasePow(len - 1) <= n && Whole(x, n, len).Runs(e) && Whole(x, n, len).RunLen(e) == len
  }

  /** A unit whose powers reach the second highest limb, and the last of them the highest. */
  ghost predicate Fills(x: nat, e: nat, n: nat, len: nat)
    requires n > 0 && len > 0
  {
    && BasePow(len - 1) <= n && Unit(x, n) && Whole(x, n, len).Tall(e, Low(len))
    && BasePow(len - 1) <= PowMod(x, e, n)
  }

  lemma FillsCompletes(x: nat, e: nat, n: nat, len: nat)
    requires 0 < len && x < n <= BasePow(len) && e > 0 && Fills(x, e, n, len)
    ensures Completes(x, e, n, len)
  {
    var p := Whole(x, n, len);
    TallRuns(p, e);
    RunFills(p, e);
    hide PowMod, Unit, Raising.Runs, Raising.RunLen, Raising.Tall;
  }

  /** Such a power: the cube of 2^33 modulo 2^66 + 1, in three limbs. */
  lemma CubeFills()
    ensures Fills(2 * Base, 3, 4 * Base * Base + 1, 3)
  {
    var x, n := 2 * Base, 4 * Base * Base + 1;
    assert BasePow(1) == Base * BasePow(0) && BasePow(2) == Base * BasePow(1);
    PowOne(x);
    assert Pow(x, 2) == AsNat(x, Pow(x, 1)) && Pow(x, 3) == AsNat(x, Pow(x, 2));
    assert Pow(x, 2) == n - 1;
    assert Pow(x, 3) == n * (x - 1) + (n - x);
    QuotientRemainder(Pow(x, 3), n, x - 1, n - x);
    RemSmall(x, n);
    RemSmall(n - 1, n);
    assert AsNat(x, n - x) == n * (x - 1) + 1;
    QuotientRemainder(AsNat(x, n - x), n, x - 1, 1);
    assert Rem(AsNat(x, n - x), n) == 1;
    var p := Whole(x, n, 3);
    assert p.Residue(1) == x && p.Residue(2) == n - 1;
    assert p.Tall(1, Low(3)) && p.Tall(3, Low(3));
  }

  /** Nothing in the two highest limbs: the first square leaves its array. */
  ghost predicate Overruns(x: nat, e: nat, len: nat)
    requires len > 1
  {
    x < BasePow(len - 2) && e > 1
  }

  lemma OverrunsStops(x: nat, e: nat, n: nat, len: nat)
    requires 1 < len && x < n <= BasePow(len) && Overruns(x, e, len)
    ensures !Completes(x, e, n, len)
  {
    BasePowGrows(len - 2, len);
    SmallStops(Whole(x, n, len), e);
  }

  /** Lines 518-521 and the like, with the bytes around them: x to the e modulo n. The power
      has to fill all limbs, or bytes that nobody wrote come with it. */
  method Transform(x: seq<Byte>, e: seq<Byte>, n: seq<Byte>) returns (outcome: Outcome, y: seq<Byte>)
    requires 12 <= |n| <= 4 * (MaxLen - 2) && |n| % 4 == 0 && |x| == |n| && 4 <= |e| <= |n| && |e| % 4 == 0
    ensures outcome == Refused <==> FromBig(x) >= FromBig(n)
    ensures outcome == Done ==>
      |y| == |n| && 0 < FromBig(n) && FromBig(y) == PowMod(FromBig(x), UsedExponent(e), FromBig(n))
    ensures outcome == Done <==>
      FromBig(x) < FromBig(n) && Completes(FromBig(x), UsedExponent(e), FromBig(n), |n| / 4)
  {
    hide Val, FromLittle, Times, Reversed, Rem, Pow, PowMod, Effective, Raising.Runs, Raising.RunLen;
    var be, topE := TakeIn(e);
    var bn, topN := TakeIn(n);
    var bx, topX := TakeIn(x);
    var r := Cmp(bx, bn);
    SameLengths(bx.v[..bx.len], bn.v[..bn.len]);
    if r >= 0 {
      return Refused, [];
    }
    if !topN {
      return Unspecified, [];
    }
    outcome, y := Raise(bx, be, bn);
  }

  method Raise(x: SBigInt, e: SBigInt, n: SBigInt) returns (outcome: Outcome, y: seq<Byte>)
    requires x.Valid() && e.Valid() && Divisor(n) && 2 < x.len == n.len <= MaxLen - 2
    requires x.Value() < n.Value()
    ensures outcome != Refused
    ensures outcome == Done ==>
      |y| == 4 * n.len && FromBig(y) == PowMod(x.Value(), Effective(e.v[..e.len]), n.Value())
    ensures outcome == Done <==> Completes(x.Value(), Effective(e.v[..e.len]), n.Value(), n.len)
  {
    TopLimb(n.v[..n.len]);
    hide Val, FromLittle, Times, Reversed, Rem, Pow, PowMod, Effective, Raising.Runs, Raising.RunLen;
    var c := new SBigInt();
    var ok := RsaTrans(c, x, e, n);
    if !ok || c.len != n.len {
      return Unspecified, [];
    }
    var to := new Byte[4 * c.len](i => 0);
    HandOut(to, c, 4 * c.len);
    y := to[..4 * c.len];
    outcome := Done;
  }

  /** RSA_PrvEnc: the data in a block of type 1, raised to the private exponent. */
  method PrvEnc(e: seq<Byte>, n: seq<Byte>, from: seq<Byte>) returns (outcome: Outcome, to: seq<Byte>)
    requires 12 <= |n| <= 4 * (MaxLen - 2) && |n| % 4 == 0 && |e| == |n|
    ensures outcome == Refused <==> |from| + PaddingSize > |n| || FromBig(Type1(|n|, from)) >= FromBig(n)
    ensures outcome == Done ==>
      |to| == |n| && 0 < FromBig(n) && FromBig(to) == PowMod(FromBig(Type1(|n|, from)), UsedExponent(e), FromBig(n))
    ensures outcome == Done <==>
      outcome != Refused && Completes(FromBig(Type1(|n|, from)), UsedExponent(e), FromBig(n), |n| / 4)
  {
    hide FromBig, Type1, PowMod, Completes, UsedExponent;
    var padded := new Byte[|n|](i => 0);
    var ok := AddType1(padded, |n|, from);
    if !ok {
      return Refused, [];
    }
    assert padded[..] == Type1(|n|, from);
    outcome, to := Transform(padded[..], e, n);
  }

  /** RSA_PubDec: text is the block that comes out, and r is what the check of it says. A
      number that is not below the modulus leaves the block unwritten. */
  method PubDec(d: seq<Byte>, n: seq<Byte>, from: seq<Byte>)
    returns (outcome: Outcome, r: int, to: seq<Byte>, ghost text: seq<Byte>)
    requires 12 <= |n| <= 4 * (MaxLen - 2) && |n| % 4 == 0 && |d| == 4 && |from| == |n|
    ensures outcome != Refused && |to| == |n|
    ensures outcome == Done ==>
      |text| == |n| && 0 < FromBig(n) && FromBig(text) == PowMod(FromBig(from), UsedExponent(d), FromBig(n))
    ensures outcome == Done ==>
      && (r >= 0 <==> exists data :: |data| <= |n| && IsType1([0] + text[1..], data))
      && (r >= 0 ==> r <= |n| && IsType1([0] + text[1..], to[..r]))
    ensures outcome == Done <==>
      FromBig(from) < FromBig(n) && Completes(FromBig(from), UsedExponent(d), FromBig(n), |n| / 4)
  {
    hide FromBig, IsType1, PowMod, Completes, UsedExponent;
    var block;
    outcome, block := Transform(from, d, n);
    var out := new Byte[|n|](i => 0);
    if outcome != Done {
      return Unspecified, -1, out[..], [];
    }
    text := block;
    r := CheckType1(out, |n|, block[1..], |n|);
    to := out[..];
    if r >= 0 {
      assert to[..r] == out[..r];
    }
  }

  /** A signature of nothing but zeros leaves the arrays. */
  method DecryptZeros(d: seq<Byte>, n: seq<Byte>) returns (outcome: Outcome)
    requires 12 <= |n| <= 4 * (MaxLen - 2) && |n| % 4 == 0 && |d| == 4 && FromBig(d) > 1
    ensures outcome == Unspecified
  {
    ghost var z := Zeros(|n|);
    NothingIn(Reversed(z));
    assert FromBig(z) == 0;
    FourBytes(d);
    if FromBig(n) > 0 {
      BigBound(n);
      OverrunsStops(0, FromBig(d), FromBig(n), |n| / 4);
    }
    hide FromBig, IsType1, PowMod, Completes, UsedExponent;
    var r, to;
    ghost var text;
    outcome, r, to, text := PubDec(d, n, Zeros(|n|));
  }

  /** An exponent of four bytes is used as it is, except that zero counts as one. */
  lemma FourBytes(d: seq<Byte>)
    requires |d| == 4
    ensures FromBig(d) > 0 ==> UsedExponent(d) == FromBig(d)
    ensures FromBig(d) == 0 ==> UsedExponent(d) == 1
  {
    UsedExponentIs(d);
    if d[..4] == Zeros(4) {
      assert d == Zeros(4);
      NothingIn(Reversed(d));
      BigLimbAt(d, 0);
    }
    hide FromLittle, Val;
  }

  // ------------------------------------------------------------------ a key pair

  /** Both powers complete; m is what is signed. */
  ghost predicate BothComplete(m: nat, e: nat, d: nat, n: nat, len: nat)
    requires n > 0 && len > 0
  {
    Completes(m, e, n, len) && Completes(PowMod(m, e, n), d, n, len)
  }

  /** They do for a unit when all powers on both ways reach the second highest limb, and the
      signature the highest. */
  lemma FillsBothComplete(m: nat, e: nat, d: nat, n: nat, len: nat)
    requires KeyPair(e, d, n) && 0 < len && BasePow(len - 1) <= m < n <= BasePow(len) && e > 0 && d > 0
    requires n > 0 && Fills(m, e, n, len) && Whole(PowMod(m, e, n), n, len).Tall(d, Low(len))
    ensures BothComplete(m, e, d, n, len)
  {
    Recovers(m, e, d, n);
    UnitPow(m, e, n);
    FillsCompletes(m, e, n, len);
    FillsCompletes(PowMod(m, e, n), d, n, len);
  }

  /** Such a key pair and number: 3 and 7 modulo 33, in one limb. */
  lemma OneLimbCompletes()
    ensures KeyPair(3, 7, 33) && BothComplete(2, 3, 7, 33, 1)
  {
    assert AsNat(3, 11) == 33 && AsNat(3, 7) == 21;
    assert Prime(3) && Prime(11);
    KeyPairOfPrimes(3, 11, 3, 7);
    assert AsNat(2, 17) == 34 && Rem(34, 33) == 1;
    assert Pow(2, 1) == 2 && Pow(2, 2) == 4 && Pow(2, 3) == 8;
    assert Whole(2, 33, 1).Tall(3, 0) && Whole(8, 33, 1).Tall(7, 0) by {
      AlwaysTall(Whole(2, 33, 1), 3);
      AlwaysTall(Whole(8, 33, 1), 7);
    }
    FillsBothComplete(2, 3, 7, 33, 1);
  }

  lemma {:induction false} AlwaysTall(p: Raising, g: nat)
    requires p.Proper()
    ensures p.Tall(g, 0)
    decreases g
  {
    if g > 1 {
      AlwaysTall(p, g / 2);
    }
  }

  /** With a key pair, public decryption gives back what was encrypted. */
  method SignAndRecover(e: seq<Byte>, d: seq<Byte>, n: seq<Byte>, data: seq<Byte>)
    returns (outcome: Outcome, back: seq<Byte>)
    requires 12 <= |n| <= 4 * (MaxLen - 2) && |n| % 4 == 0 && |e| == |n| && |d| == 4
    requires KeyPair(FromBig(e), FromBig(d), FromBig(n))
    ensures outcome == Refused <==> |data| + PaddingSize > |n| || FromBig(Type1(|n|, data)) >= FromBig(n)
    ensures outcome == Done <==>
      && outcome != Refused
      && BothComplete(FromBig(Type1(|n|, data)), UsedExponent(e), UsedExponent(d), FromBig(n), |n| / 4)
    ensures outcome == Done && WholeExponent(e) && WholeExponent(d) ==> back == data
  {
    UsedExponentIs(e);
    UsedExponentIs(d);
    hide FromBig, Type1, PowMod, KeyPair, Completes, UsedExponent, WholeExponent;
    var signature;
    outcome, signature := PrvEnc(e, n, data);
    back := [];
    if outcome == Done {
      var r, to;
      ghost var text;
      PowModSmall(FromBig(Type1(|n|, data)), UsedExponent(e), FromBig(n));
      outcome, r, to, text := PubDec(d, n, signature);
      if outcome == Done {
        ghost var block := Type1(|n|, data);
        Recovers(FromBig(block), FromBig(e), FromBig(d), FromBig(n));
        LeadingZero(|n|, data);
        if FromBig(text) == FromBig(block) {
          FromBigUnique(text, block);
          DataIsUnique(block, data, to[..r]);
        }
        back := if r >= 0 then to[..r] else [];
      }
    }
  }

  lemma PowModSmall(m: nat, e: nat, n: nat)
    requires n > 0
    ensures PowMod(m, e, n) < n
  {
  }

  lemma LeadingZero(len: nat, data: seq<Byte>)
    requires |data| + PaddingSize <= len
    ensures var block := Type1(len, data); [0] + block[1..] == block && IsType1(block, data) && |data| <= len
  {
    var block := Type1(len, data);
    assert block[0] == 0;
  }

  /** A block of type 1 reaches the highest limb. */
  lemma BlockFills(len: nat, data: seq<Byte>)
    requires |data| + PaddingSize <= len && len % 4 == 0
    ensures FromBig(Type1(len, data)) >= BasePow(len / 4 - 1)
  {
    var block := Type1(len, data);
    assert block[1] == 1;
    HighLimb(block, 1);
  }

  /** So what is signed is also recovered when its powers reach as far. */
  lemma BlockCompletes(e: nat, d: nat, n: seq<Byte>, data: seq<Byte>)
    requires |data| + PaddingSize <= |n| && |n| % 4 == 0 && FromBig(Type1(|n|, data)) < FromBig(n) && e > 0 && d > 0
    requires KeyPair(e, d, FromBig(n)) && Fills(FromBig(Type1(|n|, data)), e, FromBig(n), |n| / 4)
    requires Whole(PowMod(FromBig(Type1(|n|, data)), e, FromBig(n)), FromBig(n), |n| / 4).Tall(d, Low(|n| / 4))
    ensures BothComplete(FromBig(Type1(|n|, data)), e, d, FromBig(n), |n| / 4)
  {
    BlockFills(|n|, data);
    BigBound(n);
    FillsBothComplete(FromBig(Type1(|n|, data)), e, d, FromBig(n), |n| / 4);
    hide *;
  }
}
