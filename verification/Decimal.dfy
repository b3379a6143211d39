/** Zero-padded decimal numbers, as Rust's formatting writes them. */
module Decimal {
  import Bytes

  function Digit(n: nat): char
    requires n < 10
  {
    '0' + n as char
  }

  /** The decimal digits of `n`, at least `width` of them. */
  function Digits(n: nat, width: nat): (r: string)
    ensures |r| >= width && |r| >= 1
    decreases n, width
  {
    if n < 10 && width <= 1 then [Digit(n)]
    else Digits(n / 10, if width > 0 then width - 1 else 0) + [Digit(n % 10)]
  }

  /** `{:0width}` of a signed integer: the sign counts towards the width. */
  function Padded(n: int, width: nat): string {
    if n < 0 then "-" + Digits(-n, if width > 0 then width - 1 else 0) else Digits(n, width)
  }

  function Pow10(k: nat): (r: nat)
    ensures r >= 1
  {
    if k == 0 then 1 else 10 * Pow10(k - 1)
  }

  /** The number a string of digits stands for. */
  ghost function Value(s: string): int {
    if s == "" then 0 else 10 * Value(s[..|s| - 1]) + (s[|s| - 1] as int - '0' as int)
  }

  lemma {:induction false} ValueOfDigits(n: nat, width: nat)
    ensures Value(Digits(n, width)) == n
    decreases n, width
  {
    var d := Digits(n, width);
    if n < 10 && width <= 1 {
      assert d[..0] == "";
    } else {
      var shorter: nat := if width > 0 then width - 1 else 0;
      ValueOfDigits(n / 10, shorter);
      assert d[..|d| - 1] == Digits(n / 10, shorter);
    }
  }

  lemma {:induction false} DigitsFit(n: nat, width: nat)
    requires 0 < width && n < Pow10(width)
    ensures |Digits(n, width)| == width
    decreases width
  {
    if width > 1 {
      DigitsFit(n / 10, width - 1);
    } else {
      assert Pow10(1) == 10;
    }
  }

  /** The characters of a number are the digits `0` to `9`, the highest first. */
  lemma {:induction false} DigitAt(n: nat, width: nat, i: nat)
    requires i < |Digits(n, width)|
    ensures var d := Digits(n, width); d[|d| - 1 - i] == "0123456789"[n / Pow10(i) % 10]
    decreases n, width
  {
    DigitChars(n % 10);
    if n < 10 && width <= 1 {
      assert i == 0;
    } else if i > 0 {
      var shorter: nat := if width > 0 then width - 1 else 0;
      assert Digits(n, width) == Digits(n / 10, shorter) + [Digit(n % 10)];
      hide Digits, Digit, Pow10;
      DigitAt(n / 10, shorter, i - 1);
      TensShift(n, i - 1);
    } else {
      var shorter: nat := if width > 0 then width - 1 else 0;
      assert Digits(n, width) == Digits(n / 10, shorter) + [Digit(n % 10)];
      assert Pow10(0) == 1;
      hide Digits, Digit, Pow10;
    }
  }

  lemma DigitChars(n: nat)
    requires n < 10
    ensures Digit(n) == "0123456789"[n]
  {
  }

  lemma TensShift(n: nat, i: nat)
    ensures n / 10 / Pow10(i) == n / Pow10(i + 1)
  {
    var p := Pow10(i);
    var q, r := n / 10 / p, n / 10 % p;
    Bytes.DivMod(n / 10, p);
    assert n == 10 * (q * p + r) + n % 10;
    assert 10 * (q * p + r) == q * (10 * p) + 10 * r;
    Bytes.QuotientUnique(n, q, 10 * r + n % 10, 10 * p);
  }
}
