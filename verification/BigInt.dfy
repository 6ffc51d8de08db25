/** The big numbers of signimage/source/common/rsa/src/rsa.c, updated in place; the result of
    an operation may be one of its operands. */
module BigInt {
  import opened Limbs

  const MaxLen := 66

  class SBigInt {
    var len: nat
    const v: array<Limb>

    constructor ()
      ensures v.Length == 66 && fresh(v)
    {
      len := 0;
      v := new Limb[MaxLen](i => 0);
    }

    /** Nothing but zeros behind the limbs in use. */
    ghost predicate Valid()
      reads this, v
    {
      v.Length == MaxLen && 1 <= len <= MaxLen && forall i :: len <= i < MaxLen ==> v[i] == 0
    }

    ghost function Value(): nat
      reads this, v
      requires Valid()
    {
      Val(v[..len])
    }

    /** No zero limb on top. */
    ghost predicate Normalized()
      reads this, v
      requires Valid()
    {
      len == 1 || v[len - 1] != 0
    }
  }

  /** The same number, or different memory. */
  ghost predicate Apart(x: SBigInt, y: SBigInt) {
    x == y || x.v != y.v
  }

  /** The value of limbs that are followed by zeros. */
  lemma ValPadded(s: seq<Limb>, n: nat, m: nat)
    requires n <= m <= |s| && forall i :: n <= i < |s| ==> s[i] == 0
    ensures Val(s[..m]) == Val(s[..n])
  {
    ValExtend(s[..n], m - n);
    assert s[..m] == s[..n] + ZeroLimbs(m - n);
  }

  lemma Padded(a: SBigInt, n: nat)
    requires a.Valid() && a.len <= n <= MaxLen
    ensures Val(a.v[..n]) == a.Value()
  {
    hide Val;
    ValPadded(a.v[..], a.len, n);
    assert a.v[..a.len] == a.v[..][..a.len] && a.v[..n] == a.v[..][..n];
  }

  /** What a comparison finds: the longer number is taken for the greater. */
  ghost function Compared(a: seq<Limb>, b: seq<Limb>): int {
    if |a| != |b| then (if |a| > |b| then 1 else -1)
    else if Val(a) > Val(b) then 1 else if Val(a) < Val(b) then -1 else 0
  }

  /** The highest different limb. */
  lemma ComparedAt(x: seq<Limb>, y: seq<Limb>, i: nat)
    requires |x| == |y| && i < |x| && x[i] != y[i] && forall j :: i < j < |x| ==> x[j] == y[j]
    ensures Compared(x, y) == if x[i] > y[i] then 1 else -1
  {
    assert x[i + 1..] == y[i + 1..];
    if x[i] > y[i] {
      ValLess(y, x, i);
    } else {
      ValLess(x, y, i);
    }
  }

  /** Cmp */
  method Cmp(a: SBigInt, b: SBigInt) returns (r: int)
    requires a.Valid() && b.Valid()
    ensures r == Compared(a.v[..a.len], b.v[..b.len])
  {
    if a.len > b.len {
      return 1;
    }
    if a.len < b.len {
      return -1;
    }
    ghost var x, y := a.v[..a.len], b.v[..b.len];
    hide Val, Compared;
    var i := a.len - 1;
    while i >= 0
      invariant -1 <= i < a.len
      invariant forall j :: i < j < a.len ==> x[j] == y[j]
    {
      assert x[i] == a.v[i] && y[i] == b.v[i];
      if a.v[i] > b.v[i] {
        ComparedAt(x, y, i);
        return 1;
      }
      if a.v[i] < b.v[i] {
        ComparedAt(x, y, i);
        return -1;
      }
      i := i - 1;
    }
    assert x == y;
    ComparedSame(x);
    return 0;
  }

  lemma ComparedSame(x: seq<Limb>)
    ensures Compared(x, x) == 0
  {
  }

  /** Zeros from here on. */
  method ClearFrom(out: SBigInt, from: nat)
    requires out.v.Length == MaxLen && from <= MaxLen
    modifies out.v
    ensures out.v[..from] == old(out.v[..from]) && forall i :: from <= i < MaxLen ==> out.v[i] == 0
  {
    var i := from;
    while i < MaxLen
      invariant from <= i <= MaxLen && out.v[..from] == old(out.v[..from])
      invariant forall j :: from <= j < i ==> out.v[j] == 0
    {
      out.v[i] := 0;
      i := i + 1;
    }
  }

  /** Mov_bigint */
  method MovBigInt(out: SBigInt, a: SBigInt)
    requires out.v.Length == MaxLen && a.Valid() && Apart(out, a)
    modifies out`len, out.v
    ensures out.Valid() && out.len == old(a.len) && out.v[..] == old(a.v[..])
  {
    out.len := a.len;
    var i := 0;
    while i < MaxLen
      invariant i <= MaxLen && out.len == old(a.len)
      invariant out.v[..i] == old(a.v[..i]) && a.v[i..] == old(a.v[i..])
    {
      out.v[i] := a.v[i];
      i := i + 1;
    }
  }

  /** Mov_long */
  method MovLong(out: SBigInt, n: nat)
    requires out.v.Length == MaxLen && n < Base * Base
    modifies out`len, out.v
    ensures out.Valid() && out.Value() == n && out.Normalized() && out.len == if n >= Base then 2 else 1
  {
    if n > 0xffff_ffff {
      out.len := 2;
      out.v[1] := n / Base;
      out.v[0] := n % Base;
    } else {
      out.len := 1;
      out.v[0] := n;
    }
    ClearFrom(out, out.len);
    assert out.v[..1] == [out.v[..out.len][0]];
    OneLimb(out.v[0]);
    if n >= Base {
      assert out.v[..2] == [n % Base, n / Base];
      TwoLimbs(n % Base, n / Base);
    }
  }

  lemma TwoLimbs(x: Limb, y: Limb)
    ensures Val([x, y]) == x + Base * y
  {
    OneLimb(x);
    assert [x] + [y] == [x, y];
    ValAppend([x], y);
    TimesBase(y, 1);
    TimesUnits(y);
    assert BasePow(1) == Base * 1;
  }

  lemma AddNext(r: seq<Limb>, x: seq<Limb>, y: seq<Limb>, i: nat, carry: nat, d: Limb, next: nat)
    requires |r| == i < |x| && i < |y| && x[i] + y[i] + carry == d + Base * next
    requires Val(r) + Times(carry, BasePow(i)) == Val(x[..i]) + Val(y[..i])
    ensures Val(r + [d]) + Times(next, BasePow(i + 1)) == Val(x[..i + 1]) + Val(y[..i + 1])
  {
    AddStep(r, x[..i], y[..i], x[i], y[i], carry, d, next);
    assert x[..i + 1] == x[..i] + [x[i]] && y[..i + 1] == y[..i] + [y[i]];
  }

  /** The limbs of a sum, and the carry out of them. */
  method AddLimbs(out: SBigInt, a: SBigInt, b: SBigInt, n: nat) returns (carry: nat)
    requires out.v.Length == a.v.Length == b.v.Length == MaxLen && Apart(out, a) && Apart(out, b) && n <= MaxLen
    modifies out.v
    ensures carry <= 1 && Val(out.v[..n]) + Times(carry, BasePow(n)) == old(Val(a.v[..n])) + old(Val(b.v[..n]))
  {
    ghost var x, y := a.v[..], b.v[..];
    TimesUnits(1);
    assert out.v[..0] == x[..0] == y[..0] == [];
    assert old(a.v[..n]) == x[..n] && old(b.v[..n]) == y[..n];
    hide *;
    carry := 0;
    var i := 0;
    while i < n
      invariant i <= n && carry <= 1
      invariant forall j :: i <= j < MaxLen ==> a.v[j] == x[j] && b.v[j] == y[j]
      invariant Val(out.v[..i]) + Times(carry, BasePow(i)) == Val(x[..i]) + Val(y[..i])
    {
      var sum := a.v[i] as nat + b.v[i] + carry;
      ghost var r := out.v[..i];
      AddNext(r, x, y, i, carry, sum % Base, sum / Base);
      out.v[i] := sum % Base;
      assert out.v[..i + 1] == r + [sum % Base];
      carry := sum / Base;
      i := i + 1;
    }
  }

  /** Add_bigint */
  method AddBigInt(out: SBigInt, a: SBigInt, b: SBigInt)
    requires out.v.Length == MaxLen && a.Valid() && b.Valid() && Apart(out, a) && Apart(out, b)
    requires a.len < MaxLen && b.len < MaxLen
    modifies out`len, out.v
    ensures out.Valid() && out.Value() == old(a.Value()) + old(b.Value())
    ensures var n := if old(a.len) < old(b.len) then old(b.len) else old(a.len);
      n <= out.len <= n + 1 && (out.len > n ==> out.Normalized() && out.Value() >= BasePow(n))
  {
    ghost var n := if a.len < b.len then b.len else a.len;
    hide Val, Times;
    Padded(a, n);
    Padded(b, n);
    if a.len < b.len {
      out.len := b.len;
    } else {
      out.len := a.len;
    }
    var carry := AddLimbs(out, a, b, out.len);
    StoreCarry(out, carry);
  }

  /** Lines 150-153: the carry out of the highest limb. */
  method StoreCarry(out: SBigInt, carry: nat)
    requires out.v.Length == MaxLen && 1 <= out.len < MaxLen && carry <= 1
    modifies out`len, out.v
    ensures out.Valid() && out.Value() == old(Val(out.v[..out.len])) + Times(carry, BasePow(old(out.len)))
    ensures out.len == old(out.len) + carry && (carry == 1 ==> out.Normalized() && out.Value() >= BasePow(old(out.len)))
  {
    hide Val, Times;
    ghost var n, low := out.len, out.v[..out.len];
    out.v[out.len] := carry;
    assert out.v[..n + 1] == low + [carry];
    TopCarry(low, carry);
    out.len := out.len + carry;
    TimesUnits(BasePow(n));
    ClearFrom(out, out.len);
  }

  lemma TopCarry(low: seq<Limb>, carry: Limb)
    ensures Val(low + [carry]) == Val(low) + Times(carry, BasePow(|low|))
    ensures carry == 0 ==> Times(carry, BasePow(|low|)) == 0
  {
    ValAppend(low, carry);
    TimesUnits(BasePow(|low|));
  }

  lemma SubNext(r: seq<Limb>, x: seq<Limb>, y: seq<Limb>, i: nat, carry: nat, d: Limb, next: nat)
    requires |r| == i < |x| && i < |y| && d == x[i] - y[i] - carry + Base * next
    requires Val(r) + Val(y[..i]) == Val(x[..i]) + Times(carry, BasePow(i))
    ensures Val(r + [d]) + Val(y[..i + 1]) == Val(x[..i + 1]) + Times(next, BasePow(i + 1))
  {
    SubStep(r, x[..i], y[..i], x[i], y[i], carry, d, next);
    assert x[..i + 1] == x[..i] + [x[i]] && y[..i + 1] == y[..i] + [y[i]];
  }

  /** Lines 193-202: one limb of a difference. */
  method SubLimb(x: Limb, y: Limb, carry: nat) returns (d: Limb, next: nat)
    requires carry <= 1
    ensures next <= 1 && d == x - y - carry + Base * next
  {
    if x > y || (x == y && carry == 0) {
      d := x - carry - y;
      next := 0;
    } else {
      var num := 0x1_0000_0000 + x as nat;
      d := num - carry - y;
      next := 1;
    }
  }

  /** One limb more of a difference. */
  method SubNextLimb(out: SBigInt, a: SBigInt, b: SBigInt, i: nat, carry: nat, ghost x: seq<Limb>, ghost y: seq<Limb>)
    returns (next: nat)
    requires out.v.Length == a.v.Length == b.v.Length == MaxLen == |x| == |y| && Apart(out, a) && Apart(out, b)
    requires i < MaxLen && carry <= 1 && a.v[i] == x[i] && b.v[i] == y[i]
    requires Val(out.v[..i]) + Val(y[..i]) == Val(x[..i]) + Times(carry, BasePow(i))
    modifies out.v
    ensures next <= 1 && Val(out.v[..i + 1]) + Val(y[..i + 1]) == Val(x[..i + 1]) + Times(next, BasePow(i + 1))
    ensures forall j :: i < j < MaxLen ==> out.v[j] == old(out.v[j])
  {
    hide Val, Times, BasePow;
    ghost var r := out.v[..i];
    var d;
    d, next := SubLimb(a.v[i], b.v[i], carry);
    SubNext(r, x, y, i, carry, d, next);
    out.v[i] := d;
    assert out.v[..i + 1] == r + [d];
  }

  /** The limbs of a difference, and the borrow out of them. */
  method SubLimbs(out: SBigInt, a: SBigInt, b: SBigInt, n: nat) returns (carry: nat)
    requires out.v.Length == a.v.Length == b.v.Length == MaxLen && Apart(out, a) && Apart(out, b) && n <= MaxLen
    modifies out.v
    ensures carry <= 1 && Val(out.v[..n]) + old(Val(b.v[..n])) == old(Val(a.v[..n])) + Times(carry, BasePow(n))
  {
    ghost var x, y := a.v[..], b.v[..];
    TimesUnits(1);
    assert out.v[..0] == x[..0] == y[..0] == [];
    assert old(a.v[..n]) == x[..n] && old(b.v[..n]) == y[..n];
    hide *;
    carry := 0;
    var i := 0;
    while i < n
      invariant i <= n && carry <= 1
      invariant forall j :: i <= j < MaxLen ==> a.v[j] == x[j] && b.v[j] == y[j]
      invariant Val(out.v[..i]) + Val(y[..i]) == Val(x[..i]) + Times(carry, BasePow(i))
    {
      carry := SubNextLimb(out, a, b, i, carry, x, y);
      i := i + 1;
    }
  }

  /** Sub_bigint. ok is false when the numbers are equal but the first is recorded as longer:
      then the search for the highest limb runs out of the array. */
  method SubBigInt(out: SBigInt, a: SBigInt, b: SBigInt) returns (ok: bool)
    requires out.v.Length == MaxLen && a.Valid() && b.Valid() && Apart(out, a) && Apart(out, b)
    requires a.len >= b.len && a.Value() >= b.Value()
    modifies out`len, out.v
    ensures ok <==> old(a.Value()) > old(b.Value()) || old(a.len) == old(b.len)
    ensures ok ==>
      out.Valid() && out.Value() == old(a.Value()) - old(b.Value()) && out.Normalized() && out.len <= old(a.len)
  {
    ghost var n := a.len;
    Padded(b, n);
    var c := Cmp(a, b);
    if c <= 0 {
      MovLong(out, 0);
      return true;
    }
    hide Val, Times, Compared;
    ok := SubLarger(out, a, b);
  }

  method SubLarger(out: SBigInt, a: SBigInt, b: SBigInt) returns (ok: bool)
    requires out.v.Length == MaxLen && a.Valid() && b.v.Length == MaxLen && Apart(out, a) && Apart(out, b)
    requires a.Value() >= Val(b.v[..a.len])
    modifies out`len, out.v
    ensures ok <==> old(a.Value()) > old(Val(b.v[..a.len]))
    ensures ok ==>
      out.Valid() && out.Value() == old(a.Value()) - old(Val(b.v[..a.len])) && out.Normalized() && out.len <= old(a.len)
  {
    hide Val, Times, BasePow;
    ghost var n, x, y := a.len, a.Value(), Val(b.v[..a.len]);
    out.len := a.len;
    var carry := SubLimbs(out, a, b, a.len);
    ghost var r := out.v[..n];
    NoBorrow(r, x, y, carry);
    assert out.len == n;
    ok := StripZeros(out);
    assert ok ==> out.len <= n;
    if ok {
      ClearFrom(out, out.len);
    }
  }

  lemma NoBorrow(r: seq<Limb>, x: nat, y: nat, carry: nat)
    requires carry <= 1 && Val(r) + y == x + Times(carry, BasePow(|r|)) && x >= y
    ensures carry == 0 && Val(r) == x - y
  {
    ValBound(r);
    TimesUnits(BasePow(|r|));
    hide Val, Times;
  }

  /** Lines 203-204: the highest limb that is not zero, when there is one. */
  method StripZeros(out: SBigInt) returns (ok: bool)
    requires out.v.Length == MaxLen && 1 <= out.len <= MaxLen
    modifies out`len
    ensures ok <==> Val(out.v[..old(out.len)]) > 0
    ensures ok ==>
      1 <= out.len <= old(out.len) && out.v[out.len - 1] != 0 && Val(out.v[..out.len]) == Val(out.v[..old(out.len)])
  {
    ghost var s := out.v[..out.len];
    while out.len > 0 && out.v[out.len - 1] == 0
      invariant out.len <= |s| && Val(out.v[..out.len]) == Val(s)
    {
      TopZero(out.v[..out.len]);
      assert out.v[..out.len][..out.len - 1] == out.v[..out.len - 1];
      out.len := out.len - 1;
    }
    ok := out.len > 0;
    if ok {
      TopBounds(out.v[..out.len]);
      TopPositive(out.v[out.len - 1], BasePow(out.len - 1));
    }
  }

  lemma MulNext(r: seq<Limb>, x: seq<Limb>, i: nat, u: Limb, carry: Limb, d: Limb, next: nat)
    requires |r| == i < |x| && Times(x[i], u) + carry == d + Base * next
    requires Val(r) + Times(carry, BasePow(i)) == Times(Val(x[..i]), u)
    ensures Val(r + [d]) + Times(next, BasePow(i + 1)) == Times(Val(x[..i + 1]), u)
  {
    MulStep(r, x[..i], x[i], u, carry, d, next);
    assert x[..i + 1] == x[..i] + [x[i]];
  }

  lemma SplitLimb(m: nat)
    requires m < Base * Base
    ensures m / Base < Base && m == m % Base + Base * (m / Base)
  {
  }

  /** The limbs of a product, and the carry out of them. */
  method MulLimbs(out: SBigInt, a: SBigInt, u: Limb, n: nat) returns (carry: Limb)
    requires out.v.Length == a.v.Length == MaxLen && Apart(out, a) && n <= MaxLen
    modifies out.v
    ensures Val(out.v[..n]) + Times(carry, BasePow(n)) == Times(old(Val(a.v[..n])), u)
  {
    ghost var x := a.v[..];
    TimesUnits(u);
    TimesUnits(1);
    assert out.v[..0] == x[..0] == [];
    assert old(a.v[..n]) == x[..n];
    hide *;
    carry := 0;
    var i := 0;
    while i < n
      invariant i <= n
      invariant forall j :: i <= j < MaxLen ==> a.v[j] == x[j]
      invariant Val(out.v[..i]) + Times(carry, BasePow(i)) == Times(Val(x[..i]), u)
    {
      ghost var r := out.v[..i];
      MulFits(a.v[i], u, carry);
      var mul := Times(a.v[i], u) + carry;
      SplitLimb(mul);
      MulNext(r, x, i, u, carry, mul % Base, mul / Base);
      out.v[i] := mul % Base;
      assert out.v[..i + 1] == r + [mul % Base];
      carry := mul / Base;
      i := i + 1;
    }
  }

  /** Mul_long */
  method MulLong(out: SBigInt, a: SBigInt, u: Limb)
    requires out.v.Length == MaxLen && a.Valid() && Apart(out, a) && a.len < MaxLen
    modifies out`len, out.v
    ensures out.Valid() && out.Value() == Times(old(a.Value()), u)
    ensures old(a.len) <= out.len <= old(a.len) + 1
    ensures out.len > old(a.len) ==> out.Normalized() && out.Value() >= BasePow(old(a.len))
  {
    hide Val, Times;
    ghost var n := a.len;
    out.len := a.len;
    var carry := MulLimbs(out, a, u, out.len);
    ghost var low := out.v[..n];
    TopCarry(low, carry);
    if carry != 0 {
      TimesGrows(1, carry, BasePow(n));
      TimesUnits(BasePow(n));
      out.v[out.len] := carry;
      assert out.v[..n + 1] == low + [carry];
      out.len := out.len + 1;
    }
    ClearFrom(out, out.len);
  }
}
