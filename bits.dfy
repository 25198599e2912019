/**
 * The BigInt bit operations buildFromSet uses on the mask (app.js:66-70):
 * `1n << k` is Pow(2, k), `mask | b` is Or, and Bit(mask, i) is bit i of the mask,
 * `(mask >> i) & 1n == 1n` on BigInts.
 */
module Bits {
  import opened Numerals

  /** Bit i of m: (m >> i) & 1n == 1n on BigInts. */
  predicate Bit(m: nat, i: nat)
  {
    if i == 0 then m % 2 == 1 else Bit(m / 2, i - 1)
  }

  /** Bitwise or of two non-negative integers, bit by bit from the lowest. */
  function Or(a: nat, b: nat): nat
    decreases a + b
  {
    if a == 0 then b
    else if b == 0 then a
    else 2 * Or(a / 2, b / 2) + (if a % 2 == 1 || b % 2 == 1 then 1 else 0)
  }

  lemma {:induction false} ZeroHasNoBits(i: nat)
    ensures !Bit(0, i)
  {
    if i > 0 {
      ZeroHasNoBits(i - 1);
    }
  }

  /** Bit i of a | b is set exactly when it is set in a or in b. */
  lemma {:induction false} OrBit(a: nat, b: nat, i: nat)
    ensures Bit(Or(a, b), i) <==> Bit(a, i) || Bit(b, i)
    decreases a + b
  {
    if a == 0 {
      ZeroHasNoBits(i);
    } else if b == 0 {
      ZeroHasNoBits(i);
    } else if i > 0 {
      OrBit(a / 2, b / 2, i - 1);
      var r := Or(a, b);
      assert r / 2 == Or(a / 2, b / 2);
    }
  }

  /** 1n << k has exactly bit k set. */
  lemma {:induction false} PowerBit(k: nat, i: nat)
    ensures Bit(Pow(2, k), i) <==> i == k
  {
    if k == 0 {
      if i > 0 {
        ZeroHasNoBits(i - 1);
      }
    } else if i > 0 {
      PowerBit(k - 1, i - 1);
    }
  }

  /** Or keeps a bound that is a power of two. */
  lemma {:induction false} OrBelowPower(a: nat, b: nat, w: nat)
    requires a < Pow(2, w) && b < Pow(2, w)
    ensures Or(a, b) < Pow(2, w)
    decreases a + b
  {
    if a != 0 && b != 0 {
      OrBelowPower(a / 2, b / 2, w - 1);
    }
  }

  lemma {:induction false} PowerMonotone(k: nat, w: nat)
    requires k < w
    ensures Pow(2, k) < Pow(2, w)
  {
    if k < w - 1 {
      PowerMonotone(k, w - 1);
    }
  }

  /** Setting a bit above every bit of m adds its value: m | (1n << k) == m + 2^k when m < 2^k. */
  lemma {:induction false} OrNewTopBit(m: nat, k: nat)
    requires m < Pow(2, k)
    ensures Or(m, Pow(2, k)) == m + Pow(2, k)
  {
    if m != 0 {
      OrNewTopBit(m / 2, k - 1);
    }
  }
}
