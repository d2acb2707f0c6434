/** Python's `str()` of an integer and the `'0' * k` padding, as the bucket
    file names use them. */
module Decimal {
  import Lex

  function Pow10(k: nat): (p: nat)
    ensures p >= 1
  {
    if k == 0 then 1 else 10 * Pow10(k - 1)
  }

  /** The character of a decimal digit. */
  function Digit(d: nat): (c: char)
    requires d < 10
    ensures '0' <= c <= '9'
  {
    ('0' as int + d) as char
  }

  /** Python's `'0' * k`: `k` zeros, and the empty string for `k <= 0`. */
  function Zeros(k: int): (z: string)
    ensures |z| == (if k <= 0 then 0 else k)
    ensures forall i :: 0 <= i < |z| ==> z[i] == '0'
  {
    if k <= 0 then "" else "0" + Zeros(k - 1)
  }

  /** Number of digits in the decimal form of `x`; `x` is below the
      smallest number with one digit more. */
  function NumDigits(x: nat): (d: nat)
    ensures d >= 1
    ensures x < Pow10(d)
  {
    if x < 10 then 1 else 1 + NumDigits(x / 10)
  }

  /** The last `w` decimal digits of `x`, most significant first. */
  function FixedWidth(x: nat, w: nat): (s: string)
    ensures |s| == w
    ensures forall i :: 0 <= i < |s| ==> '0' <= s[i] <= '9'
  {
    if w == 0 then "" else FixedWidth(x / 10, w - 1) + [Digit(x % 10)]
  }

  /** Python's `str(x)` for a non-negative integer. */
  function Str(x: nat): string
  {
    FixedWidth(x, NumDigits(x))
  }

  /** Python's `str(i)` for any integer. */
  function PyStr(i: int): string
  {
    if i < 0 then "-" + Str(-i) else Str(i)
  }

  lemma StrZero()
    ensures Str(0) == "0"
  {
    assert NumDigits(0) == 1;
    assert FixedWidth(0, 1) == FixedWidth(0, 0) + [Digit(0)];
  }

  lemma {:induction false} Pow10Monotone(a: nat, b: nat)
    requires a <= b
    ensures Pow10(a) <= Pow10(b)
    decreases b
  {
    if a < b {
      Pow10Monotone(a, b - 1);
    }
  }

  lemma {:induction false} NumDigitsMonotone(x: nat, y: nat)
    requires x <= y
    ensures NumDigits(x) <= NumDigits(y)
    decreases y
  {
    if x >= 10 {
      NumDigitsMonotone(x / 10, y / 10);
    }
  }

  /** Dropping the last digit of a number below `10^w` leaves a number
      below `10^(w-1)`. */
  lemma DropDigit(x: nat, w: nat)
    requires w > 0 && x < Pow10(w)
    ensures x / 10 < Pow10(w - 1)
  {
    assert Pow10(w) == 10 * Pow10(w - 1);
  }

  /** Two numbers compare as their leading parts, then as their last digits. */
  lemma CompareByLastDigit(x: nat, y: nat)
    ensures x < y <==> x / 10 < y / 10 || (x / 10 == y / 10 && x % 10 < y % 10)
    ensures x == y <==> x / 10 == y / 10 && x % 10 == y % 10
  {
  }

  lemma DigitOrder(a: nat, b: nat)
    requires a < 10 && b < 10
    ensures Digit(a) < Digit(b) <==> a < b
  {
  }

  /** Fixed-width decimal strings compare as strings exactly as their values
      compare as numbers. */
  lemma {:induction false} FixedWidthOrder(x: nat, y: nat, w: nat)
    requires x < Pow10(w) && y < Pow10(w)
    ensures Lex.Less(FixedWidth(x, w), FixedWidth(y, w)) <==> x < y
    decreases w
  {
    if w == 0 {
      Lex.Irreflexive("");
    } else {
      DropDigit(x, w);
      DropDigit(y, w);
      var a, b := FixedWidth(x / 10, w - 1), FixedWidth(y / 10, w - 1);
      FixedWidthOrder(x / 10, y / 10, w - 1);
      FixedWidthOrder(y / 10, x / 10, w - 1);
      Lex.Irreflexive(a);
      Lex.SnocLess(a, Digit(x % 10), b, Digit(y % 10));
      DigitOrder(x % 10, y % 10);
      CompareByLastDigit(x, y);
    }
  }

  /** Zero written in `w` digits is `w` zeros. */
  lemma {:induction false} FixedWidthZero(w: nat)
    ensures FixedWidth(0, w) == Zeros(w)
    decreases w
  {
    if w > 0 {
      FixedWidthZero(w - 1);
      var s := Zeros(w - 1) + "0";
      assert FixedWidth(0, w) == s;
      assert forall i :: 0 <= i < w ==> s[i] == '0';
    }
  }

  /** A number with `d` digits, written in `w >= d` digits, is its
      `d`-digit form preceded by zeros. */
  lemma {:induction false} FixedWidthPadding(x: nat, d: nat, w: nat)
    requires x < Pow10(d) && d <= w
    ensures FixedWidth(x, w) == Zeros(w - d) + FixedWidth(x, d)
    decreases d
  {
    if d == 0 {
      FixedWidthZero(w);
    } else {
      DropDigit(x, d);
      FixedWidthPadding(x / 10, d - 1, w - 1);
      var last := [Digit(x % 10)];
      assert FixedWidth(x, w) == Zeros(w - d) + FixedWidth(x / 10, d - 1) + last;
      assert FixedWidth(x, d) == FixedWidth(x / 10, d - 1) + last;
    }
  }

  /** `str()` is one-to-one on non-negative integers. */
  lemma StrInjective(x: nat, y: nat)
    requires Str(x) == Str(y)
    ensures x == y
  {
    var d := NumDigits(x);
    assert NumDigits(y) == d;
    if x < y {
      FixedWidthOrder(x, y, d);
      Lex.Irreflexive(Str(x));
    } else if y < x {
      FixedWidthOrder(y, x, d);
      Lex.Irreflexive(Str(x));
    }
  }
}
