/** Decimal numerals, and codes padded to three digits. */
module Decimal {
  function Digit(d: nat): char
    requires d < 10
  {
    '0' + (d as char)
  }

  /** The digits of a number, without leading zeros; zero is "0". */
  function Numeral(n: nat): (s: string)
    ensures |s| > 0
  {
    if n < 10 then [Digit(n)] else Numeral(n / 10) + [Digit(n % 10)]
  }

  predicate IsDigit(c: char) {
    '0' <= c <= '9'
  }

  function DigitValue(c: char): nat
    requires IsDigit(c)
  {
    (c - '0') as nat
  }

  /** What a text of digits stands for. */
  function Value(s: string): nat
    requires forall i :: 0 <= i < |s| ==> IsDigit(s[i])
  {
    if s == "" then 0 else 10 * Value(s[..|s| - 1]) + DigitValue(s[|s| - 1])
  }

  lemma {:induction false} NumeralValue(n: nat)
    ensures forall i :: 0 <= i < |Numeral(n)| ==> IsDigit(Numeral(n)[i])
    ensures Value(Numeral(n)) == n
  {
    if n < 10 {
      assert Numeral(n)[..0] == "";
    } else {
      NumeralValue(n / 10);
      assert Numeral(n)[..|Numeral(n)| - 1] == Numeral(n / 10);
    }
  }

  lemma {:induction false} NumeralLength(n: nat)
    ensures n < 10 ==> |Numeral(n)| == 1
    ensures 10 <= n < 100 ==> |Numeral(n)| == 2
    ensures 100 <= n < 1000 ==> |Numeral(n)| == 3
    ensures n >= 1000 ==> |Numeral(n)| > 3
  {
    if n >= 10 {
      NumeralLength(n / 10);
    }
  }

  /** `k` is `n` without its last few digits, if any. */
  predicate Shortened(n: nat, k: nat) {
    n == k || (n >= 10 && Shortened(n / 10, k))
  }

  lemma NumeralInjective(a: nat, b: nat)
    requires Numeral(a) == Numeral(b)
    ensures a == b
  {
    NumeralValue(a);
    NumeralValue(b);
  }

  /** One numeral begins another exactly when its number is the other's without the last digits. */
  lemma {:induction false} PrefixIffShortened(n: nat, k: nat)
    ensures Numeral(k) <= Numeral(n) <==> Shortened(n, k)
  {
    var s := Numeral(n);
    if n >= 10 {
      PrefixIffShortened(n / 10, k);
      assert s[..|s| - 1] == Numeral(n / 10);
    }
    hide Numeral;
    if Numeral(k) <= s && |Numeral(k)| == |s| {
      NumeralInjective(n, k);
    }
  }

  lemma {:induction false} ShortenedTrans(n: nat, m: nat, k: nat)
    requires Shortened(n, m) && Shortened(m, k)
    ensures Shortened(n, k)
  {
    if n != m {
      ShortenedTrans(n / 10, m, k);
    }
  }

  /** Some longer number beyond the bound begins with the digits of `a`. */
  lemma {:induction false} LongerExists(a: nat, bound: nat) returns (n: nat)
    requires a > 0
    ensures n > bound && n > a && Shortened(n, a)
    decreases if 10 * a > bound then 0 else bound + 1 - 10 * a
  {
    assert 10 * a / 10 == a;
    assert Shortened(10 * a, a);
    if 10 * a > bound {
      n := 10 * a;
    } else {
      n := LongerExists(10 * a, bound);
      ShortenedTrans(n, 10 * a, a);
    }
  }

  lemma {:induction false} LeadingDigit(n: nat)
    ensures n > 0 ==> Numeral(n)[0] != '0'
  {
    if n >= 10 {
      LeadingDigit(n / 10);
    }
  }

  function Padded(s: string): string
    decreases 3 - |s|
  {
    if |s| < 3 then Padded("0" + s) else s
  }

  lemma {:induction false} LeadingZero(s: string)
    requires forall i :: 0 <= i < |s| ==> IsDigit(s[i])
    ensures forall i :: 0 <= i < |"0" + s| ==> IsDigit(("0" + s)[i])
    ensures Value("0" + s) == Value(s)
  {
    if s == "" {
      assert "0"[..0] == "";
    } else {
      LeadingZero(s[..|s| - 1]);
      assert ("0" + s)[..|s|] == "0" + s[..|s| - 1];
    }
  }

  lemma {:induction false} PaddedValue(s: string)
    requires forall i :: 0 <= i < |s| ==> IsDigit(s[i])
    ensures forall i :: 0 <= i < |Padded(s)| ==> IsDigit(Padded(s)[i])
    ensures Value(Padded(s)) == Value(s)
    ensures |Padded(s)| == if |s| < 3 then 3 else |s|
    decreases 3 - |s|
  {
    if |s| < 3 {
      LeadingZero(s);
      PaddedValue("0" + s);
    }
  }

  /** A code such as REQ-007. */
  function Code(prefix: string, n: nat): string {
    prefix + "-" + Padded(Numeral(n))
  }

  /** Different numbers have different codes. */
  lemma CodeInjective(prefix: string, a: nat, b: nat)
    requires Code(prefix, a) == Code(prefix, b)
    ensures a == b
  {
    NumeralValue(a);
    NumeralValue(b);
    PaddedValue(Numeral(a));
    PaddedValue(Numeral(b));
    hide Padded, Numeral, Value;
    var x, y := Padded(Numeral(a)), Padded(Numeral(b));
    assert Code(prefix, a)[|prefix| + 1..] == x;
    assert Code(prefix, b)[|prefix| + 1..] == y;
  }

  /** A code is its prefix, a hyphen, and at least three digits that stand for the number, filled up with zeros up to three only. */
  lemma CodeReads(prefix: string, n: nat)
    ensures var code, digits := Code(prefix, n), Padded(Numeral(n));
      && code == prefix + "-" + digits
      && (forall i :: 0 <= i < |digits| ==> IsDigit(digits[i])) && Value(digits) == n
      && |digits| >= 3 && (n < 1000 <==> |digits| == 3)
  {
    NumeralValue(n);
    NumeralLength(n);
    PaddedValue(Numeral(n));
  }
}
