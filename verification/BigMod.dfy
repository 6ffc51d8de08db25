/** Mod_bigint of signimage/source/common/rsa/src/rsa.c: long division that guesses each
    quotient from the highest limbs. */
module BigMod {
  import opened BigInt
  import opened Limbs
  import opened Residues

  // ------------------------------------------------------------------ the guess is never too high

  /** A guess that is not zero takes less than there is. */
  lemma Estimate(n: nat, num: nat, q: nat, d: nat, p: nat, e: nat, s: nat)
    requires n < Times(num + 1, p) && Times(q, num + 1) <= d && Times(d, Times(p, e)) <= s && e > 0
    ensures q > 0 ==> Times(e, Times(n, q)) < s
  {
    TimesGrows(n + 1, Times(num + 1, p), q);
    TimesAdds(n, 1, q);
    TimesUnits(q);
    TimesAssoc(num + 1, p, q);
    TimesAssoc(p, q, num + 1);
    TimesAssoc(q, num + 1, p);
    TimesAssoc(num + 1, q, p);
    TimesGrows(Times(q, num + 1), d, p);
    TimesGrows(Times(n, q) + q, Times(d, p), e);
    TimesAssoc(d, p, e);
    TimesAssoc(e, Times(n, q), 1);
    TimesAdds(Times(n, q), q, e);
    if q > 0 {
      TopPositive(q, e);
    }
    hide Times;
  }

  lemma Quotient(d: nat, m: nat)
    requires m > 0
    ensures 0 <= Times(d / m, m) <= d < Times(d / m, m) + m
  {
    assert d == m * (d / m) + d % m;
  }

  lemma QuotientFits(div: Limb, next: Limb, num: Limb)
    requires div <= num
    ensures (Base * div + next) / (num as int + 1) < Base
  {
    var d, m := Base * div + next, num as int + 1;
    Quotient(d, m);
    TimesBase(1, m);
    TimesUnits(m);
    TimesUnits(Base * m);
    assert d < Times(Base, m);
    if d / m >= Base {
      TimesGrows(Base, d / m, m);
    }
  }

  /** A longer number with a limb on top is greater. */
  lemma LongerIsGreater(a: seq<Limb>, b: seq<Limb>)
    requires |a| > |b| && a[|a| - 1] != 0
    ensures Val(a) > Val(b)
  {
    ValBound(b);
    TopBounds(a);
    TimesGrows(1, a[|a| - 1], BasePow(|a| - 1));
    TimesUnits(BasePow(|a| - 1));
    BasePowGrows(|b|, |a| - 1);
  }

  // ------------------------------------------------------------------ one subtraction

  /** Lines 384-389: the number moved up by k limbs. */
  method ShiftUp(t: SBigInt, k: nat)
    requires t.Valid() && t.len + k <= MaxLen
    modifies t`len, t.v
    ensures t.Valid() && t.len == old(t.len) + k && t.Value() == Times(BasePow(k), old(t.Value()))
  {
    ghost var low := t.v[..t.len];
    ValShift(k, low);
    TimesUnits(Val(low));
    hide Val, Times;
    if k != 0 {
      t.len := t.len + k;
      MoveLimbs(t, |low|, k);
      ZeroLow(t, k);
      Shifted(t.v[..t.len], low, k);
    }
  }

  lemma Shifted(s: seq<Limb>, low: seq<Limb>, k: nat)
    requires |s| == |low| + k
    requires forall j :: 0 <= j < k ==> s[j] == 0
    requires forall j :: k <= j < |s| ==> s[j] == low[j - k]
    ensures s == ZeroLimbs(k) + low
  {
  }

  method MoveLimbs(t: SBigInt, ghost l: nat, k: nat)
    requires t.v.Length == MaxLen && t.len == l + k <= MaxLen && 0 < k && 0 < l
    requires forall j :: l <= j < MaxLen ==> t.v[j] == 0
    modifies t.v
    ensures forall j :: k <= j < l + k ==> t.v[j] == old(t.v[j - k])
    ensures forall j :: l + k <= j < MaxLen ==> t.v[j] == 0
  {
    ghost var s := t.v[..];
    var i := t.len - 1;
    while i >= k
      invariant k - 1 <= i < l + k
      invariant forall j :: i < j < l + k ==> t.v[j] == s[j - k]
      invariant forall j :: 0 <= j <= i ==> t.v[j] == s[j]
      invariant forall j :: l + k <= j < MaxLen ==> t.v[j] == 0
    {
      t.v[i] := t.v[i - k];
      i := i - 1;
    }
  }

  method ZeroLow(t: SBigInt, k: nat)
    requires t.v.Length == MaxLen && k <= MaxLen
    modifies t.v
    ensures forall j :: 0 <= j < k ==> t.v[j] == 0
    ensures forall j :: k <= j < MaxLen ==> t.v[j] == old(t.v[j])
  {
    var i := 0;
    while i < k
      invariant i <= k
      invariant forall j :: 0 <= j < i ==> t.v[j] == 0
      invariant forall j :: k <= j < MaxLen ==> t.v[j] == old(t.v[j])
    {
      t.v[i] := 0;
      i := i + 1;
    }
  }

  /** What is subtracted: the divisor times a guess for its quotient, k limbs up. */
  ghost function Multiple(n: nat, q: nat, k: nat): nat {
    var m := Times(BasePow(k), Times(n, q));
    if m >= 0 then m else 0
  }

  lemma MultipleIs(n: nat, q: nat, k: nat)
    ensures Multiple(n, q, k) == Times(BasePow(k), Times(n, q))
    ensures Multiple(n, 0, k) == 0
    ensures n > 0 && q > 0 ==> Multiple(n, q, k) > 0
  {
    TimesUnits(BasePow(k));
    TimesUnits(n);
  }

  /** The guess: from the two highest limbs when the highest alone says nothing. */
  ghost predicate Guess(s: seq<Limb>, n: seq<Limb>, q: nat, k: nat)
    requires |s| >= |n| > 0
  {
    var num, div, len := n[|n| - 1] as nat, s[|s| - 1] as nat, |s| - |n|;
    if div <= num && len > 0 then k == len - 1 && q == (Base * div + s[|s| - 2]) / (num + 1)
    else k == len && q == div / (num + 1)
  }

  /** m is subtracted from s: less than s, or nothing from nothing. */
  ghost predicate Takes(q: nat, m: nat, s: nat) {
    m < s || (q == 0 && m == 0)
  }

  lemma GuessBelow(s: seq<Limb>, n: seq<Limb>, q: nat, k: nat)
    requires |s| >= |n| > 0 && Guess(s, n, q, k)
    ensures q < Base && Takes(q, Multiple(Val(n), q, k), Val(s))
  {
    var num, div, len := n[|n| - 1] as nat, s[|s| - 1] as nat, |s| - |n|;
    var p := BasePow(|n| - 1);
    MultipleIs(Val(n), q, k);
    TopBounds(n);
    BasePowAdds(|n| - 1, k);
    if div <= num && len > 0 {
      var d := Base * div + s[|s| - 2];
      QuotientFits(s[|s| - 1], s[|s| - 2], n[|n| - 1]);
      Quotient(d, num + 1);
      TopTwo(s);
      Estimate(Val(n), num, q, d, p, BasePow(k), Val(s));
    } else {
      Quotient(div, num + 1);
      TopBounds(s);
      Estimate(Val(n), num, q, div, p, BasePow(k), Val(s));
    }
  }

  /** A round gets on: it subtracts something, or a zero limb goes from the top. */
  lemma GuessProgress(s: seq<Limb>, n: seq<Limb>, q: nat, k: nat)
    requires |s| >= |n| > 0 && Guess(s, n, q, k) && n[|n| - 1] != 0 && Compared(s, n) >= 0
    requires !(s[|s| - 1] == n[|n| - 1] && |s| == |n|)
    ensures q >= 1 || (|s| > |n| && s[|s| - 1] == 0)
  {
    var num, div, len := n[|n| - 1] as nat, s[|s| - 1] as nat, |s| - |n|;
    if div <= num && len > 0 {
      var d := Base * div + s[|s| - 2];
      Quotient(d, num + 1);
      if q == 0 {
        TimesUnits(num + 1);
      }
    } else {
      if len == 0 && div < num {
        TopBounds(s);
        TopBounds(n);
        TimesGrows(div + 1, num, BasePow(|n| - 1));
        assert false;
      }
      Quotient(div, num + 1);
      if q == 0 {
        TimesUnits(num + 1);
      }
    }
  }

  /** Equal top limbs and equal lengths: the divisor goes into the number once. */
  lemma Once(s: seq<Limb>, n: seq<Limb>)
    requires |s| == |n| > 0 && s[|s| - 1] == n[|n| - 1] != 0 && Compared(s, n) >= 0
    ensures 0 <= Val(s) - Val(n) < Val(n)
  {
    var num, p := n[|n| - 1] as nat, BasePow(|n| - 1);
    TopBounds(s);
    TopBounds(n);
    TimesAdds(num, 1, p);
    TimesUnits(p);
    TimesGrows(1, num, p);
    hide Times;
  }

  // ------------------------------------------------------------------ remainders

  /** Subtracting a multiple leaves the remainder. */
  lemma RemMultiple(s: nat, n: nat, q: nat, k: nat)
    requires n > 0 && Multiple(n, q, k) <= s
    ensures Rem(s - Multiple(n, q, k), n) == Rem(s, n)
    ensures s == Multiple(n, q, k) ==> Rem(s, n) == 0
  {
    hide Times, Rem, Multiple;
    var x := MultipleOf(n, q, k);
    RemTimes(s - Multiple(n, q, k), n, x);
    RemTimes(0, n, x);
    RemSmall(0, n);
  }

  lemma MultipleOf(n: nat, q: nat, k: nat) returns (x: nat)
    ensures Multiple(n, q, k) == Times(n, x)
  {
    MultipleIs(n, q, k);
    TimesAssoc(n, q, BasePow(k));
    TimesAssoc(BasePow(k), Times(n, q), 0);
    TimesGrows(0, q, BasePow(k));
    TimesUnits(BasePow(k));
    hide Times, Multiple;
    x := Times(q, BasePow(k));
  }

  // ------------------------------------------------------------------ the division

  /** Lines 380-390: the guess times the divisor is subtracted. */
  method Subtract(out: SBigInt, n: SBigInt, q: Limb, k: nat) returns (ok: bool)
    requires out.Valid() && n.Valid() && out.v != n.v && out != n && n.Value() > 0
    requires n.len + k <= out.len && n.len < MaxLen && Takes(q, Multiple(n.Value(), q, k), out.Value())
    modifies out`len, out.v
    ensures ok <==> n.len + k == old(out.len) || old(out.Value()) > 0
    ensures ok ==> out.Valid() && out.Value() == old(out.Value()) - Multiple(n.Value(), q, k) && out.Normalized()
    ensures ok ==> out.len <= old(out.len)
  {
    hide Val, Times, Multiple;
    ghost var s := out.v[..out.len];
    MultipleIs(n.Value(), q, k);
    var t := new SBigInt();
    MulLong(t, n, q);
    NotLonger(t.v[..t.len], k, s, n.len);
    NothingTaken(n.Value(), t.v[..t.len], q);
    ShiftUp(t, k);
    ok := SubBigInt(out, out, t);
  }

  /** No times the divisor: a product with a limb on top would be more. */
  lemma NothingTaken(n: nat, t: seq<Limb>, q: nat)
    requires t != [] && Val(t) == Times(n, q)
    ensures q == 0 ==> t[|t| - 1] == 0
  {
    TimesUnits(n);
    if t[|t| - 1] != 0 {
      LongerIsGreater(t, []);
    }
  }

  /** What is subtracted has no more limbs than what it is subtracted from. */
  lemma NotLonger(t: seq<Limb>, k: nat, s: seq<Limb>, l: nat)
    requires l <= |t| <= l + 1 && 0 < l && l + k <= |s| && (|t| > l ==> t[|t| - 1] != 0)
    requires Times(BasePow(k), Val(t)) <= Val(s)
    ensures |t| + k <= |s|
  {
    if |t| + k > |s| {
      ValShift(k, t);
      LongerIsGreater(ZeroLimbs(k) + t, s);
    }
  }

  /** Nothing, recorded with more limbs than the divisor has, is the one number whose division
      leaves the array. */
  ghost predicate Safe(a: SBigInt, n: SBigInt)
    requires a.Valid() && n.Valid()
    reads a, a.v, n, n.v
  {
    a.len <= n.len || a.Value() > 0
  }

  /** The divisor: no zero limb on top, and room for a carry. */
  ghost predicate Divisor(n: SBigInt)
    reads n, n.v
  {
    n.Valid() && n.len < MaxLen && n.v[n.len - 1] != 0
  }

  /** A round that takes nothing away makes the number shorter. */
  lemma Shorter(s: seq<Limb>, t: seq<Limb>)
    requires 1 < |s| && 0 < |t| <= |s| && s[|s| - 1] == 0 && Val(s) == Val(t) && (|t| == 1 || t[|t| - 1] != 0)
    ensures |t| < |s|
  {
    TopZero(s);
    if |t| == |s| {
      LongerIsGreater(t, s[..|s| - 1]);
    }
  }

  lemma NoLimbs(s: seq<Limb>)
    requires s != [] && Val(s) == 0
    ensures s[|s| - 1] == 0
  {
    if s[|s| - 1] != 0 {
      LongerIsGreater(s, []);
    }
  }

  /** Nothing is guessed for nothing, one place down if there is one. */
  lemma GuessOfNothing(s: seq<Limb>, n: seq<Limb>, q: nat, k: nat)
    requires |s| >= |n| > 0 && Guess(s, n, q, k) && Val(s) == 0
    ensures |n| + k == |s| <==> |s| == |n|
  {
    NoLimbs(s);
  }

  /** Lines 371-382: the guess. */
  method GuessQuotient(out: SBigInt, n: SBigInt) returns (q: Limb, k: nat)
    requires out.Valid() && Divisor(n) && out.len >= n.len
    ensures k + n.len <= out.len && Guess(out.v[..out.len], n.v[..n.len], q, k)
  {
    hide Val, Times, Multiple, Takes;
    ghost var s, m := out.v[..out.len], n.v[..n.len];
    var div: nat := out.v[out.len - 1];
    var num := n.v[n.len - 1];
    k := out.len - n.len;
    assert s[|s| - 1] == div && m[|m| - 1] == num;
    if div <= num && k != 0 {
      k := k - 1;
      assert s[|s| - 2] == out.v[out.len - 2];
      div := Base * div + out.v[out.len - 2];
    }
    div := div / (num as int + 1);
    assert Guess(s, m, div, k);
    GuessBelow(s, m, div, k);
    q := div;
  }

  /** A round of guessing gets on and keeps the remainder. */
  lemma GuessKeeps(s: seq<Limb>, n: seq<Limb>, q: nat, k: nat)
    requires |s| >= |n| > 0 && Guess(s, n, q, k) && n[|n| - 1] != 0 && Compared(s, n) >= 0 && Val(n) > 0
    requires !(s[|s| - 1] == n[|n| - 1] && |s| == |n|)
    ensures Takes(q, Multiple(Val(n), q, k), Val(s)) && 0 <= Multiple(Val(n), q, k)
    ensures Rem(Val(s) - Multiple(Val(n), q, k), Val(n)) == Rem(Val(s), Val(n))
    ensures Multiple(Val(n), q, k) > 0 || (|s| > |n| && s[|s| - 1] == 0)
  {
    hide Val, Times, Rem, Multiple, Compared;
    GuessBelow(s, n, q, k);
    GuessProgress(s, n, q, k);
    MultipleIs(Val(n), q, k);
    RemMultiple(Val(s), Val(n), q, k);
  }

  lemma Longer(s: seq<Limb>, n: seq<Limb>)
    requires Compared(s, n) >= 0
    ensures |s| >= |n|
  {
  }

  /** Lines 371-390: one round of the division. done: nothing is left to divide. */
  method Round(out: SBigInt, n: SBigInt) returns (ok: bool, done: bool)
    requires out.Valid() && Divisor(n) && n.Value() > 0 && out.v != n.v && out != n
    requires Compared(out.v[..out.len], n.v[..n.len]) >= 0
    modifies out`len, out.v
    ensures ok <==> old(Safe(out, n))
    ensures ok ==> out.Valid() && out.Normalized() && Rem(out.Value(), n.Value()) == Rem(old(out.Value()), n.Value())
    ensures ok ==> out.len <= old(out.len) && (done ==> out.Value() < n.Value() && out.len <= n.len)
    ensures ok && !done ==>
      out.Value() < old(out.Value()) || (out.Value() == old(out.Value()) && out.len < old(out.len))
  {
    ghost var s, m := out.v[..out.len], n.v[..n.len];
    Longer(s, m);
    hide Val, Times, Rem, Multiple, Compared, Guess;
    assert s[|s| - 1] == out.v[out.len - 1] && m[|m| - 1] == n.v[n.len - 1];
    done := out.v[out.len - 1] == n.v[n.len - 1] && out.len == n.len;
    if done {
      Once(s, m);
      RemPlus(Val(s) - Val(m), Val(m));
      ok := SubBigInt(out, out, n);
      assert out.len <= n.len;
    } else {
      var q, k := GuessQuotient(out, n);
      GuessKeeps(s, m, q, k);
      if Val(s) == 0 {
        GuessOfNothing(s, m, q, k);
      }
      ok := Subtract(out, n, q, k);
      if ok && Val(s) == out.Value() {
        Shorter(s, out.v[..out.len]);
      }
    }
  }

  lemma SmallerMeans(s: seq<Limb>, n: seq<Limb>)
    requires n != [] && n[|n| - 1] != 0 && Compared(s, n) < 0
    ensures Val(s) < Val(n) && |s| <= |n|
  {
    if |s| < |n| {
      LongerIsGreater(n, s);
    }
  }

  lemma LongIsPositive(s: seq<Limb>)
    requires |s| > 1 ==> s[|s| - 1] != 0
    ensures |s| > 1 ==> Val(s) > 0
  {
    if |s| > 1 && Val(s) == 0 {
      NoLimbs(s);
    }
  }

  /** Mod_bigint. ok is false when a subtraction runs out of the array. */
  method ModBigInt(out: SBigInt, a: SBigInt, n: SBigInt) returns (ok: bool)
    requires out.v.Length == MaxLen && a.Valid() && Divisor(n) && n.Value() > 0
    requires Apart(out, a) && out.v != n.v && out != n
    modifies out`len, out.v
    ensures ok <==> old(Safe(a, n))
    ensures ok ==> out.Valid() && out.Value() == Rem(old(a.Value()), n.Value()) && out.len <= n.len
    ensures ok ==>
      out.len == if old(a.len) <= n.len && old(a.Value()) < n.Value() then old(a.len) else Size(out.Value())
  {
    hide Val, Times, Rem;
    ghost var x, l, safe := a.Value(), a.len, Safe(a, n);
    MovBigInt(out, a);
    assert out.v[..out.len] == old(a.v[..a.len]);
    var done := false;
    var c := Cmp(out, n);
    while c >= 0
      invariant out.Valid() && Rem(out.Value(), n.Value()) == Rem(x, n.Value())
      invariant out.Normalized() || (out.len == l && out.Value() == x)
      invariant safe <==> Safe(out, n)
      invariant l <= n.len && x < n.Value() ==> c < 0 && out.len == l
      invariant c == Compared(out.v[..out.len], n.v[..n.len])
      decreases out.Value(), out.len
    {
      ok, done := Round(out, n);
      if !ok {
        return false;
      }
      if done {
        RemSmall(out.Value(), n.Value());
        SizeIs(out.v[..out.len]);
        return true;
      }
      LongIsPositive(out.v[..out.len]);
      c := Cmp(out, n);
    }
    SmallerMeans(out.v[..out.len], n.v[..n.len]);
    RemSmall(out.Value(), n.Value());
    if out.Normalized() {
      SizeIs(out.v[..out.len]);
    }
    return true;
  }

  /** Two limbs of nothing, divided by one. */
  method DivideNothing() returns (ok: bool)
    ensures !ok
  {
    var a := new SBigInt();
    var n := new SBigInt();
    var out := new SBigInt();
    MovLong(a, 0);
    ValPadded(a.v[..], 1, 2);
    assert a.v[..1] == a.v[..][..1] && a.v[..2] == a.v[..][..2];
    a.len := 2;
    MovLong(n, 1);
    assert n.v[..1] == [n.v[0]];
    OneLimb(n.v[0]);
    ok := ModBigInt(out, a, n);
  }
}
