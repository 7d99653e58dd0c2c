/** Decimal views of balances: what round.go obtains from `big.Int`'s `String`,
    `SetString(…, 10)` and `Exp(10, k, nil)`. */
module Decimal {

  /** 10^k. */
  function Pow10(k: nat): (r: nat)
    ensures r >= 1
  {
    if k == 0 then 1 else 10 * Pow10(k - 1)
  }

  /** The product of two balances (`big.Int.Mul`). */
  function Mul(x: nat, y: nat): nat
  {
    x * y
  }

  predicate IsDigit(c: char) { '0' <= c <= '9' }

  predicate IsDigitString(s: string) { forall i :: 0 <= i < |s| ==> IsDigit(s[i]) }

  function DigitValue(c: char): nat
    requires IsDigit(c)
  {
    c as int - '0' as int
  }

  function DigitChar(d: nat): (c: char)
    requires d < 10
    ensures IsDigit(c) && DigitValue(c) == d
  {
    ('0' as int + d) as char
  }

  /** The decimal string of a non-negative integer (`big.Int.String`): no sign, no
      leading zero, "0" for zero. Its length is the number of decimal digits. */
  function Digits(n: nat): (s: string)
    ensures 1 <= |s| && IsDigitString(s)
    decreases n
  {
    if n < 10 then [DigitChar(n)] else Digits(n / 10) + [DigitChar(n % 10)]
  }

  /** A balance of `k` digits lies in [10^(k-1), 10^k) (in [0, 10) for one digit). */
  lemma {:induction false} DigitsBounds(n: nat)
    ensures n < Pow10(|Digits(n)|)
    ensures |Digits(n)| == 1 || Pow10(|Digits(n)| - 1) <= n
    decreases n
  {
    if n >= 10 {
      DigitsBounds(n / 10);
    }
  }

  /** The value of a string of decimal digits (`big.Int.SetString(s, 10)`). */
  function Parse(s: string): nat
    requires IsDigitString(s)
  {
    if s == [] then 0 else 10 * Parse(s[..|s| - 1]) + DigitValue(s[|s| - 1])
  }

  /** Printing a balance and reading it back gives the balance. */
  lemma {:induction false} ParseDigits(n: nat)
    ensures Parse(Digits(n)) == n
    decreases n
  {
    if n >= 10 {
      var s := Digits(n);
      assert s[..|s| - 1] == Digits(n / 10);
      ParseDigits(n / 10);
    }
  }

  lemma {:induction false} Pow10Monotone(a: nat, b: nat)
    requires a <= b
    ensures Pow10(a) <= Pow10(b)
    decreases b
  {
    if a < b {
      Pow10Monotone(a, b - 1);
    }
  }

  /** The value of a digit string is below 10^length. */
  lemma {:induction false} ParseBound(s: string)
    requires IsDigitString(s)
    ensures Parse(s) < Pow10(|s|)
    decreases |s|
  {
    if s != [] {
      ParseBound(s[..|s| - 1]);
    }
  }

  /** Reading the concatenation of two digit strings: the leading part is scaled by the
      length of the trailing part. */
  lemma {:induction false} ParseAppend(a: string, b: string)
    requires IsDigitString(a) && IsDigitString(b)
    ensures IsDigitString(a + b)
    ensures Parse(a + b) == Parse(a) * Pow10(|b|) + Parse(b)
    decreases |b|
  {
    if b == [] {
      assert a + b == a;
    } else {
      var b' := b[..|b| - 1];
      assert (a + b)[..|a + b| - 1] == a + b';
      ParseAppend(a, b');
      assert Parse(a + b) == 10 * Parse(a + b') + DigitValue(b[|b| - 1]);
      assert Parse(b) == 10 * Parse(b') + DigitValue(b[|b| - 1]);
      ScaleByTen(Parse(a), Pow10(|b'|), Parse(b'));
    }
  }

  lemma ScaleByTen(x: nat, p: nat, y: nat)
    ensures 10 * (x * p + y) == x * (10 * p) + 10 * y
  {
  }

  /** A balance splits into its leading `j` digits, scaled, plus the value of the rest,
      which is below the scale. */
  lemma DigitsSplit(n: nat, j: nat)
    requires j <= |Digits(n)|
    ensures Parse(Digits(n)[..j]) * Pow10(|Digits(n)| - j) <= n
    ensures n < Parse(Digits(n)[..j]) * Pow10(|Digits(n)| - j) + Pow10(|Digits(n)| - j)
  {
    var s := Digits(n);
    assert s == s[..j] + s[j..];
    ParseAppend(s[..j], s[j..]);
    ParseDigits(n);
    ParseBound(s[j..]);
    SplitBounds(n, Parse(s[..j]), Parse(s[j..]), Pow10(|s| - j));
  }

  lemma SplitBounds(n: nat, hi: nat, lo: nat, scale: nat)
    requires n == hi * scale + lo && lo < scale
    ensures hi * scale <= n < hi * scale + scale
  {
  }

  /** Powers of ten are in the order of their exponents. */
  lemma Pow10Below(x: nat, y: nat, n: nat)
    requires Pow10(x) <= n < Pow10(y)
    ensures x < y
  {
    if x >= y {
      Pow10Monotone(y, x);
    }
  }

  /** A larger balance never has fewer digits. */
  lemma DigitsMonotone(a: nat, b: nat)
    requires a <= b
    ensures |Digits(a)| <= |Digits(b)|
  {
    DigitsBounds(a);
    DigitsBounds(b);
    if |Digits(a)| > 1 {
      Pow10Below(|Digits(a)| - 1, |Digits(b)|, a);
    }
  }

  /** A balance with fewer digits is smaller. */
  lemma FewerDigitsSmaller(a: nat, b: nat)
    requires |Digits(a)| < |Digits(b)|
    ensures a < b
  {
    DigitsBounds(a);
    DigitsBounds(b);
    Pow10Monotone(|Digits(a)|, |Digits(b)| - 1);
  }

  lemma MulMonotone(x: nat, a: nat, b: nat)
    requires a <= b
    ensures Mul(x, a) <= Mul(x, b)
  {
  }


  /** The digits of a four-digit balance, position by position. */
  lemma DigitsOfFour(n: nat)
    requires 1000 <= n < 10000
    ensures |Digits(n)| == 4
    ensures Digits(n)[0] == DigitChar(n / 1000) && Digits(n)[1] == DigitChar(n / 100 % 10)
    ensures Digits(n)[2] == DigitChar(n / 10 % 10) && Digits(n)[3] == DigitChar(n % 10)
    ensures Digits(n)[..2] == Digits(n / 100)
  {
    var s1, s2, s3 := Digits(n / 1000), Digits(n / 100), Digits(n / 10);
    assert s1 == [DigitChar(n / 1000)];
    assert s2 == s1 + [DigitChar(n / 100 % 10)];
    assert s3 == s2 + [DigitChar(n / 10 % 10)];
    assert Digits(n) == s3 + [DigitChar(n % 10)];
  }
}
