/**
 * Number <-> text conversions used by app.js: BigInt's toString(radix)
 * (app.js:74-75), Number(fragment) with Number.isInteger (app.js:43-44),
 * String(number) in template literals (app.js:78) and String.prototype.padStart
 * (app.js:75).  All numbers are mathematical integers.
 */
module Numerals {
  import opened Wrappers

  /** b to the power k; Pow(2, k) is the BigInt 1n << k. */
  function Pow(b: nat, k: nat): (r: nat)
    ensures b >= 1 ==> r >= 1
  {
    if k == 0 then 1 else
      var p := Pow(b, k - 1);
      assert b >= 1 ==> b * p >= p;
      b * p
  }

  predicate IsDigit(c: char) { '0' <= c <= '9' }

  function DigitValue(c: char): nat
    requires IsDigit(c)
  {
    c as int - '0' as int
  }

  function DigitChar(d: nat): (c: char)
    requires d < 10
    ensures IsDigit(c) && DigitValue(c) == d
  {
    ('0' as int + d) as char
  }

  /** Every character of s is a digit of the given radix. */
  predicate IsRadixDigits(s: string, radix: nat)
  {
    forall k :: 0 <= k < |s| ==> IsDigit(s[k]) && DigitValue(s[k]) < radix
  }

  /** The value of a digit string read in the given radix (leading zeros allowed). */
  function RadixValue(s: string, radix: nat): nat
    requires IsRadixDigits(s, radix)
  {
    if s == [] then 0 else RadixValue(s[..|s| - 1], radix) * radix + DigitValue(s[|s| - 1])
  }

  /** BigInt.prototype.toString(radix) of a non-negative value. */
  function RadixString(n: nat, radix: nat): (r: string)
    requires 2 <= radix <= 10
    ensures |r| > 0 && IsRadixDigits(r, radix)
    ensures RadixValue(r, radix) == n
    ensures r[0] == '0' ==> r == "0"
    ensures n == 0 <==> r == "0"
    decreases n
  {
    if n < radix then [DigitChar(n)]
    else
      DivideByRadix(n, radix);
      var p := RadixString(n / radix, radix);
      var r := p + [DigitChar(n % radix)];
      assert r[..|r| - 1] == p;
      assert RadixValue(r, radix) == RadixValue(p, radix) * radix + n % radix;
      r
  }

  /** The text accepted by Number(...) with Number.isInteger(...) when it only holds '-' and digits: -?[0-9]+ */
  predicate IsIntegerLiteral(f: string)
  {
    && f != [] && f != "-"
    && forall k :: 0 <= k < |f| ==> IsDigit(f[k]) || (k == 0 && f[k] == '-')
  }

  /** Number(f) kept by Number.isInteger, for a fragment f made of '-' and digits. */
  function ParseInt(f: string): (r: Option<int>)
    ensures r.Some? <==> IsIntegerLiteral(f)
    ensures r.Some? && r.value < 0 ==> f[0] == '-'
  {
    if |f| > 1 && f[0] == '-' && IsRadixDigits(f[1..], 10) then Some(0 - RadixValue(f[1..], 10))
    else if |f| > 0 && IsRadixDigits(f, 10) then Some(RadixValue(f, 10))
    else None
  }

  /** The integer a field converts to is its decimal value, negated after a leading '-'. */
  lemma ParseIntValue(f: string)
    requires ParseInt(f).Some?
    ensures f[0] != '-' ==> IsRadixDigits(f, 10) && ParseInt(f).value == RadixValue(f, 10)
    ensures f[0] == '-' ==> IsRadixDigits(f[1..], 10) && ParseInt(f).value == 0 - RadixValue(f[1..], 10)
  {
  }

  /** String(z) for an integer z: its signed decimal text. */
  function SignedDecimal(z: int): (r: string)
    ensures |r| > 0
    ensures forall k :: 0 <= k < |r| ==> IsDigit(r[k]) || (k == 0 && r[k] == '-')
    ensures r[0] == '-' ==> |r| > 1 && r[1] != '0'
    ensures r[0] == '0' ==> r == "0"
  {
    if z < 0 then "-" + RadixString(-z, 10) else RadixString(z, 10)
  }

  /** The signed decimal text of z reads back as z. */
  lemma SignedDecimalParses(z: int)
    ensures ParseInt(SignedDecimal(z)) == Some(z)
  {
    if z < 0 {
      var d := RadixString(-z, 10);
      assert SignedDecimal(z)[1..] == d;
    }
  }

  function Repeat(c: char, k: nat): (r: string)
    ensures |r| == k
    ensures forall i :: 0 <= i < k ==> r[i] == c
  {
    if k == 0 then [] else [c] + Repeat(c, k - 1)
  }

  /** String.prototype.padStart(width, pad) with a one-character pad. */
  function PadStart(s: string, width: int, pad: char): (r: string)
    ensures |r| == if |s| >= width then |s| else width
    ensures r[|r| - |s|..] == s
    ensures forall i :: 0 <= i < |r| - |s| ==> r[i] == pad
  {
    if |s| >= width then s else Repeat(pad, width - |s|) + s
  }

  /** Padding a string no longer than width prepends exactly width - |s| pad characters. */
  lemma PadStartPrepends(s: string, width: int, pad: char)
    requires |s| <= width
    ensures PadStart(s, width, pad) == Repeat(pad, width - |s|) + s
  {
    if |s| == width {
      assert Repeat(pad, 0) + s == s;
    }
  }

  /** Leading zeros do not change the value of a digit string. */
  lemma {:induction false} ZeroPaddingKeepsValue(k: nat, s: string, radix: nat)
    requires 2 <= radix <= 10 && IsRadixDigits(s, radix)
    ensures IsRadixDigits(Repeat('0', k) + s, radix)
    ensures RadixValue(Repeat('0', k) + s, radix) == RadixValue(s, radix)
    decreases |s|
  {
    var z := Repeat('0', k);
    if s == [] {
      assert z + s == z;
      ZerosHaveNoValue(k, radix);
    } else {
      var init := s[..|s| - 1];
      ZeroPaddingKeepsValue(k, init, radix);
      assert (z + s)[..|z + s| - 1] == z + init;
    }
  }

  lemma {:induction false} ZerosHaveNoValue(k: nat, radix: nat)
    requires 2 <= radix <= 10
    ensures IsRadixDigits(Repeat('0', k), radix)
    ensures RadixValue(Repeat('0', k), radix) == 0
  {
    if k > 0 {
      ZerosHaveNoValue(k - 1, radix);
      var z := Repeat('0', k);
      assert z == Repeat('0', k - 1) + ['0'] by {
        RepeatSnoc(k - 1);
      }
      assert z[..k - 1] == Repeat('0', k - 1);
    }
  }

  lemma RepeatSnoc(k: nat)
    ensures Repeat('0', k + 1) == Repeat('0', k) + ['0']
  {
  }

  /** A value below radix^w needs at most w digits (w >= 1). */
  lemma {:induction false} RadixStringLength(n: nat, radix: nat, w: nat)
    requires 2 <= radix <= 10 && w >= 1 && n < Pow(radix, w)
    ensures |RadixString(n, radix)| <= w
    decreases w
  {
    if n >= radix {
      assert w >= 2 by {
        assert Pow(radix, 1) == radix;
      }
      var p := Pow(radix, w - 1);
      DivideBelow(n, radix, p);
      DivideByRadix(n, radix);
      RadixStringLength(n / radix, radix, w - 1);
    }
  }

  lemma DivideByRadix(n: nat, radix: nat)
    requires 2 <= radix <= n
    ensures 1 <= n / radix < n
    ensures n == (n / radix) * radix + n % radix && n % radix < radix
  {
  }

  lemma DivideBelow(n: nat, d: nat, p: nat)
    requires d > 0 && n < d * p
    ensures n / d < p
  {
  }
}
