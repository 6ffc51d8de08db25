/** Bit reversal of indices and the reversed-carry counter that steps through it. */
module BitReversal {

  function Exp2(n: nat): (p: nat)
    ensures p >= 1
  {
    if n == 0 then 1 else 2 * Exp2(n - 1)
  }

  lemma {:induction false} Exp2Splits(m: nat, n: nat)
    ensures Exp2(m + n) == Exp2(m) * Exp2(n)
  {
    if m > 0 {
      Exp2Splits(m - 1, n);
    }
  }

  /** Binary digit d of i. */
  function Digit(i: nat, d: nat): nat {
    if d == 0 then i % 2 else Digit(i / 2, d - 1)
  }

  /** The top one of `bits` digits of i, and i without it. */
  function High(bits: nat, i: nat): (h: nat)
    requires bits > 0 && i < Exp2(bits)
    ensures h < 2
  {
    if i < Exp2(bits - 1) then 0 else 1
  }

  function Low(bits: nat, i: nat): (l: nat)
    requires bits > 0 && i < Exp2(bits)
    ensures l < Exp2(bits - 1)
  {
    if i < Exp2(bits - 1) then i else i - Exp2(bits - 1)
  }

  /** i with its `bits` binary digits in the opposite order: the top digit becomes the
      lowest one. */
  function Rev(bits: nat, i: nat): (r: nat)
    requires i < Exp2(bits)
    ensures r < Exp2(bits)
  {
    if bits == 0 then 0 else 2 * Rev(bits - 1, Low(bits, i)) + High(bits, i)
  }

  /** The same function read from the other end: the lowest digit becomes the top one. */
  lemma {:induction false} RevLowDigit(bits: nat, i: nat)
    requires bits > 0 && i < Exp2(bits)
    ensures i / 2 < Exp2(bits - 1)
    ensures Rev(bits, i) == Rev(bits - 1, i / 2) + (if i % 2 == 1 then Exp2(bits - 1) else 0)
  {
    if bits == 1 {
      assert Rev(0, Low(1, i)) == 0 && Rev(0, i / 2) == 0;
    } else {
      LowHalves(bits, i);
      RevLowDigit(bits - 1, Low(bits, i));
    }
  }

  lemma LowHalves(bits: nat, i: nat)
    requires bits > 1 && i < Exp2(bits)
    ensures i / 2 < Exp2(bits - 1)
    ensures Low(bits, i) / 2 == Low(bits - 1, i / 2)
    ensures High(bits, i) == High(bits - 1, i / 2)
    ensures Low(bits, i) % 2 == i % 2
  {
    assert Exp2(bits - 1) == 2 * Exp2(bits - 2);
  }

  lemma {:induction false} RevInvolution(bits: nat, i: nat)
    requires i < Exp2(bits)
    ensures Rev(bits, Rev(bits, i)) == i
  {
    if bits > 0 {
      RevLowDigit(bits, Rev(bits, i));
      RevInvolution(bits - 1, Low(bits, i));
    }
  }

  /** Digit d of the reversal is digit bits-1-d of the index. */
  lemma {:induction false} RevDigits(bits: nat, i: nat, d: nat)
    requires i < Exp2(bits) && d < bits
    ensures Digit(Rev(bits, i), d) == Digit(i, bits - 1 - d)
  {
    if d == 0 {
      TopDigit(bits, i);
    } else {
      RevDigits(bits - 1, Low(bits, i), d - 1);
      LowerDigits(bits, i, bits - 1 - d);
    }
  }

  lemma {:induction false} TopDigit(bits: nat, i: nat)
    requires bits > 0 && i < Exp2(bits)
    ensures Digit(i, bits - 1) == High(bits, i)
  {
    if bits > 1 {
      LowHalves(bits, i);
      TopDigit(bits - 1, i / 2);
    }
  }

  lemma {:induction false} LowerDigits(bits: nat, i: nat, d: nat)
    requires i < Exp2(bits) && d + 1 < bits
    ensures Digit(Low(bits, i), d) == Digit(i, d)
  {
    LowHalves(bits, i);
    if d > 0 {
      LowerDigits(bits - 1, i / 2, d - 1);
    }
  }

  /** Adds one at the top digit and lets the carry run downwards. */
  function ReverseCarry(bits: nat, r: nat): nat
    requires r < Exp2(bits)
  {
    if bits == 0 then 0
    else if r >= Exp2(bits - 1) then ReverseCarry(bits - 1, r - Exp2(bits - 1))
    else r + Exp2(bits - 1)
  }

  /** Counting up on the index is counting with a reversed carry on its reversal. */
  lemma {:induction false} ReverseCarryCounts(bits: nat, i: nat)
    requires i + 1 < Exp2(bits)
    ensures ReverseCarry(bits, Rev(bits, i)) == Rev(bits, i + 1)
  {
    assert bits > 0;
    RevLowDigit(bits, i);
    RevLowDigit(bits, i + 1);
    if i % 2 == 1 {
      ReverseCarryCounts(bits - 1, i / 2);
    } else {
      assert (i + 1) / 2 == i / 2;
    }
  }
}
