/** Decimal rendering of non-negative integers as Rust's formatting does it:
    `to_string()` (shortest form) and `{:0w}` (zero padded to width `w`),
    and the digit strings these produce. */
module Numerals {
  import opened Lex

  function Pow10(k: nat): (p: nat)
    ensures p >= 1
  {
    if k == 0 then 1 else 10 * Pow10(k - 1)
  }

  predicate IsDigit(c: char)
  {
    '0' <= c <= '9'
  }

  predicate AllDigits(s: string)
  {
    forall i :: 0 <= i < |s| ==> IsDigit(s[i])
  }

  function DigitChar(d: nat): (c: char)
    requires d < 10
    ensures IsDigit(c)
  {
    ('0' as int + d) as char
  }

  function DigitValue(c: char): (d: nat)
    requires IsDigit(c)
    ensures d < 10 && DigitChar(d) == c
  {
    c as int - '0' as int
  }

  /** `n.to_string()`: the shortest decimal numeral of `n`, "0" for zero. */
  function Decimal(n: nat): (s: string)
    ensures |s| >= 1 && AllDigits(s)
  {
    if n < 10 then [DigitChar(n)] else Decimal(n / 10) + [DigitChar(n % 10)]
  }

  /** Zero padding on the left up to `w` characters; a longer string is kept whole. */
  function PadZeros(s: string, w: nat): (r: string)
  {
    if |s| >= w then s else seq(w - |s|, _ => '0') + s
  }

  /** `format!("{:0w}", n)` for a non-negative `n`. */
  function FormatPadded(n: nat, w: nat): string
  {
    PadZeros(Decimal(n), w)
  }

  /** The `w` low-order decimal digits of `n`, most significant first. */
  function Digits(n: nat, w: nat): (s: string)
    ensures |s| == w && AllDigits(s)
  {
    if w == 0 then [] else Digits(n / 10, w - 1) + [DigitChar(n % 10)]
  }

  /** The value of a string of decimal digits (the empty string is 0). */
  function ParseDigits(s: string): nat
    requires AllDigits(s)
  {
    if s == [] then 0 else 10 * ParseDigits(s[..|s| - 1]) + DigitValue(s[|s| - 1])
  }

  lemma {:induction false} DecimalUpperBound(n: nat, k: nat)
    requires 1 <= k && n < Pow10(k)
    ensures |Decimal(n)| <= k
  {
    if n >= 10 {
      assert k >= 2;
      DecimalUpperBound(n / 10, k - 1);
    }
  }

  lemma {:induction false} DecimalLowerBound(n: nat, k: nat)
    requires Pow10(k) <= n
    ensures |Decimal(n)| > k
  {
    if k > 0 {
      DecimalLowerBound(n / 10, k - 1);
    }
  }

  /** `to_string` is a numeral of `n`: its digits read back as `n`. */
  lemma {:induction false} DecimalValue(n: nat)
    ensures ParseDigits(Decimal(n)) == n
  {
    if n >= 10 {
      var init := Decimal(n / 10);
      assert (init + [DigitChar(n % 10)])[..|init|] == init;
      DecimalValue(n / 10);
    }
  }

  /** `to_string` starts with '0' only for zero, whose numeral is "0". */
  lemma DecimalLeadsWithZero(n: nat)
    ensures Decimal(n)[0] == '0' <==> n == 0
  {
    if n >= 1 {
      DecimalLeadingDigit(n);
    }
  }

  /** `to_string` of a positive number never starts with '0'. */
  lemma {:induction false} DecimalLeadingDigit(n: nat)
    requires n >= 1
    ensures Decimal(n)[0] != '0'
  {
    if n >= 10 {
      DecimalLeadingDigit(n / 10);
    }
  }

  lemma {:induction false} DigitsOfZero(w: nat)
    ensures Digits(0, w) == seq(w, _ => '0')
  {
    if w > 0 {
      DigitsOfZero(w - 1);
    }
  }

  /** Zero padding to a width the number fits in gives its fixed-width digits. */
  lemma {:induction false} PaddedIsDigits(n: nat, w: nat)
    requires 1 <= w && n < Pow10(w)
    ensures FormatPadded(n, w) == Digits(n, w)
  {
    DecimalUpperBound(n, w);
    if n < 10 {
      DigitsOfZero(w - 1);
      assert Digits(n, w) == Digits(0, w - 1) + [DigitChar(n)];
    } else {
      PaddedIsDigits(n / 10, w - 1);
      var d := Decimal(n / 10);
      assert Decimal(n) == d + [DigitChar(n % 10)];
      assert PadZeros(d + [DigitChar(n % 10)], w)
          == PadZeros(d, w - 1) + [DigitChar(n % 10)];
    }
  }

  /** Fixed-width digit strings sort like the numbers they denote. */
  lemma {:induction false} DigitsOrder(n: nat, m: nat, w: nat)
    requires n < m < Pow10(w)
    ensures Less(Digits(n, w), Digits(m, w))
  {
    assert w >= 1;
    var cn, cm := DigitChar(n % 10), DigitChar(m % 10);
    if n / 10 < m / 10 {
      DigitsOrder(n / 10, m / 10, w - 1);
      LessAppend(Digits(n / 10, w - 1), Digits(m / 10, w - 1), [cn], [cm]);
    } else {
      assert n / 10 == m / 10 && n % 10 < m % 10;
      LessCommonPrefix(Digits(n / 10, w - 1), [cn], [cm]);
    }
  }

  /** Reading the fixed-width digits back gives the number. */
  lemma {:induction false} ParseDigitsOfDigits(n: nat, w: nat)
    requires n < Pow10(w)
    ensures ParseDigits(Digits(n, w)) == n
  {
    if w > 0 {
      var s, q, d := Digits(n, w), n / 10, n % 10;
      assert s == Digits(q, w - 1) + [DigitChar(d)];
      assert s[..w - 1] == Digits(q, w - 1) && s[w - 1] == DigitChar(d);
      assert q < Pow10(w - 1);
      ParseDigitsOfDigits(q, w - 1);
      assert ParseDigits(s) == 10 * q + d;
    }
  }

  /** A digit string is the fixed-width rendering of its own value. */
  lemma {:induction false} DigitsOfParseDigits(s: string)
    requires AllDigits(s)
    ensures ParseDigits(s) < Pow10(|s|)
    ensures Digits(ParseDigits(s), |s|) == s
  {
    if s != [] {
      var t := s[..|s| - 1];
      DigitsOfParseDigits(t);
      var v := ParseDigits(s);
      assert v / 10 == ParseDigits(t) && v % 10 == DigitValue(s[|s| - 1]);
      assert s == t + [s[|s| - 1]];
    }
  }

  /** Fixed-width digit strings compare with `<=` exactly as their numbers. */
  lemma DigitsLessEq(n: nat, m: nat, w: nat)
    requires n < Pow10(w) && m < Pow10(w)
    ensures LessEq(Digits(n, w), Digits(m, w)) <==> n <= m
  {
    if n < m {
      DigitsOrder(n, m, w);
      LessAsymmetric(Digits(n, w), Digits(m, w));
    } else if m < n {
      DigitsOrder(m, n, w);
    } else {
      LessIrreflexive(Digits(n, w));
    }
  }

  /** A number of exactly `k` digits: its `to_string` is its `k`-digit form. */
  lemma DecimalIsDigits(n: nat, k: nat)
    requires 1 <= k && Pow10(k - 1) <= n < Pow10(k)
    ensures Decimal(n) == Digits(n, k)
  {
    DecimalUpperBound(n, k);
    DecimalLowerBound(n, k - 1);
    PaddedIsDigits(n, k);
  }
}
