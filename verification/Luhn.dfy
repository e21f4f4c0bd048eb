/**
 The Luhn check of a card number (ISO/IEC 7812-1, Annex B): from the right, every second digit is
 doubled, and the digit sum must be divisible by ten.
 */
module Luhn {
  import opened Wrappers

  type Digits = seq<nat>

  ghost predicate AllDigits(ds: Digits) {
    forall i :: 0 <= i < |ds| ==> ds[i] < 10
  }

  /** What a digit adds to the sum; a doubled digit above nine adds its digit sum. */
  function Value(d: nat, doubled: bool): (v: nat)
    requires d < 10
    ensures v < 10
  {
    if !doubled then d else if d * 2 > 9 then d * 2 - 9 else d * 2
  }

  /** The sum over all digits, where `doubled` says whether the last digit is doubled. */
  function Sum(ds: Digits, doubled: bool): nat
    requires AllDigits(ds)
  {
    if ds == [] then 0 else Sum(ds[..|ds| - 1], !doubled) + Value(ds[|ds| - 1], doubled)
  }

  lemma {:induction false} SumOfZeros(n: nat, doubled: bool)
    ensures Sum(seq(n, i => 0), doubled) == 0
  {
    if n > 0 {
      var zeros := seq(n, i => 0);
      assert zeros[..n - 1] == seq(n - 1, i => 0);
      SumOfZeros(n - 1, !doubled);
    }
  }

  predicate Valid(ds: Digits)
    requires AllDigits(ds)
  {
    ds != [] && Sum(ds, false) % 10 == 0
  }

  /** Whether position `i` is doubled. */
  function Doubled(n: nat, i: nat, doubled: bool): bool
    requires i < n
  {
    if i == n - 1 then doubled else Doubled(n - 1, i, !doubled)
  }

  lemma {:induction false} DoubledAlternates(n: nat, i: nat, doubled: bool)
    requires i + 1 < n
    ensures Doubled(n, i, doubled) == !Doubled(n, i + 1, doubled)
  {
    if i + 2 < n {
      DoubledAlternates(n - 1, i, !doubled);
    }
  }

  /** Changing one digit changes the sum by the difference of its values. */
  lemma {:induction false} SumUpdate(ds: Digits, i: nat, d: nat, doubled: bool)
    requires AllDigits(ds) && i < |ds| && d < 10
    ensures Sum(ds[i := d], doubled) + Value(ds[i], Doubled(|ds|, i, doubled)) == Sum(ds, doubled) + Value(d, Doubled(|ds|, i, doubled))
  {
    var n := |ds| - 1;
    if i < n {
      SumUpdate(ds[..n], i, d, !doubled);
      assert ds[i := d][..n] == ds[..n][i := d];
    } else {
      assert ds[i := d][..n] == ds[..n];
    }
  }

  lemma ValueInjective(a: nat, b: nat, doubled: bool)
    requires a < 10 && b < 10
    ensures Value(a, doubled) == Value(b, doubled) <==> a == b
  {
  }

  lemma SameRemainder(x: nat, y: nat, a: nat, b: nat)
    requires a < 10 && b < 10 && x + a == y + b && x % 10 == y % 10
    ensures a == b
  {
    assert x == 10 * (x / 10) + x % 10 && y == 10 * (y / 10) + y % 10;
  }

  /** No single-digit error goes unnoticed. */
  lemma SingleChangeDetected(ds: Digits, i: nat, d: nat)
    requires AllDigits(ds) && Valid(ds) && i < |ds| && d < 10 && d != ds[i]
    ensures !Valid(ds[i := d])
  {
    SumUpdate(ds, i, d, false);
    ValueInjective(ds[i], d, Doubled(|ds|, i, false));
    hide Sum, Value, Doubled;
    if Valid(ds[i := d]) {
      SameRemainder(Sum(ds[i := d], false), Sum(ds, false), Value(ds[i], Doubled(|ds|, i, false)), Value(d, Doubled(|ds|, i, false)));
    }
  }

  /** The digit that completes a prefix. */
  function CheckDigit(ds: Digits): (d: nat)
    requires AllDigits(ds)
    ensures d < 10
  {
    (10 - Sum(ds, true) % 10) % 10
  }

  /** Exactly one final digit completes each prefix. */
  lemma CheckDigitUnique(ds: Digits, d: nat)
    requires AllDigits(ds) && d < 10
    ensures Valid(ds + [d]) <==> d == CheckDigit(ds)
  {
    assert (ds + [d])[..|ds|] == ds;
    var sum := Sum(ds, true);
    assert Sum(ds + [d], false) == sum + d;
    hide Sum;
    Completes(sum, d);
  }

  lemma Completes(sum: nat, d: nat)
    requires d < 10
    ensures (sum + d) % 10 == 0 <==> d == (10 - sum % 10) % 10
  {
    var q, r := sum / 10, sum % 10;
    assert sum + d == 10 * q + (r + d);
    if r == 0 {
      assert (10 - r) % 10 == 0;
    } else {
      assert (10 - r) % 10 == 10 - r;
    }
  }

  /** Two neighbours exchanged. */
  function Swapped(ds: Digits, i: nat): (r: Digits)
    requires AllDigits(ds) && i + 1 < |ds|
    ensures AllDigits(r) && |r| == |ds|
  {
    ds[i := ds[i + 1]][i + 1 := ds[i]]
  }

  /** What doubling changes. */
  function Gain(d: nat): int
    requires d < 10
  {
    Value(d, true) - Value(d, false)
  }

  lemma GainSame(a: nat, b: nat)
    requires a < 10 && b < 10
    ensures -8 <= Gain(a) - Gain(b) <= 8
    ensures Gain(a) == Gain(b) <==> a == b || (a == 0 && b == 9) || (a == 9 && b == 0)
  {
  }

  lemma SumSwapped(ds: Digits, i: nat)
    requires AllDigits(ds) && i + 1 < |ds|
    ensures Sum(Swapped(ds, i), false) - Sum(ds, false) ==
      if Doubled(|ds|, i, false) then Gain(ds[i + 1]) - Gain(ds[i]) else Gain(ds[i]) - Gain(ds[i + 1])
  {
    var a, b := ds[i], ds[i + 1];
    var one := ds[i := b];
    SumUpdate(ds, i, b, false);
    SumUpdate(one, i + 1, a, false);
    DoubledAlternates(|ds|, i, false);
    assert one[i + 1 := a] == Swapped(ds, i);
    hide Sum, Doubled, Value;
  }

  lemma SmallMultiple(x: int, y: int)
    requires x % 10 == 0 && -8 <= y - x <= 8
    ensures y % 10 == 0 <==> y == x
  {
    assert x == 10 * (x / 10) && y == 10 * (y / 10) + y % 10;
  }

  /** Of the exchanges of unequal neighbours, only that of zero and nine goes unnoticed. */
  lemma SwapDetected(ds: Digits, i: nat)
    requires AllDigits(ds) && Valid(ds) && i + 1 < |ds|
    ensures Valid(Swapped(ds, i)) <==> ds[i] == ds[i + 1] || (ds[i] == 0 && ds[i + 1] == 9) || (ds[i] == 9 && ds[i + 1] == 0)
  {
    SumSwapped(ds, i);
    GainSame(ds[i], ds[i + 1]);
    hide Sum, Gain, Doubled;
    SmallMultiple(Sum(ds, false), Sum(Swapped(ds, i), false));
  }

  // ---------- the computation ----------

  /** Which characters are decimal digits, of any script, and what they stand for. */
  type Decimals = f: char -> Option<nat> | forall c :: f(c).Some? ==> f(c).value < 10 witness (c: char) => None

  /** The digits of a number; other characters are skipped. */
  function DigitsOf(number: string, decimal: Decimals): (ds: Digits)
    ensures AllDigits(ds)
  {
    if number == "" then []
    else
      var front, digit := DigitsOf(number[..|number| - 1], decimal), decimal(number[|number| - 1]);
      if digit.Some? then front + [digit.value] else front
  }

  /** Other characters make no difference, and digits keep their order. */
  lemma {:induction false} DigitsKept(before: string, c: char, after: string, decimal: Decimals)
    ensures DigitsOf("", decimal) == []
    ensures DigitsOf(before + [c] + after, decimal) ==
      DigitsOf(before, decimal) + (if decimal(c).Some? then [decimal(c).value] else []) + DigitsOf(after, decimal)
    decreases |after|
  {
    hide DigitsOf;
    NextDigit("", c, decimal);
    if after == "" {
      NextDigit(before, c, decimal);
      assert before + [c] + after == before + [c];
    } else {
      var front, last := after[..|after| - 1], after[|after| - 1];
      assert after == front + [last] && before + [c] + after == before + [c] + front + [last];
      DigitsKept(before, c, front, decimal);
      NextDigit(before + [c] + front, last, decimal);
      NextDigit(front, last, decimal);
    }
  }

  lemma NextDigit(front: string, last: char, decimal: Decimals)
    ensures DigitsOf("", decimal) == []
    ensures DigitsOf(front + [last], decimal) == DigitsOf(front, decimal) + if decimal(last).Some? then [decimal(last).value] else []
  {
    assert (front + [last])[..|front|] == front;
  }

  lemma {:induction false} NoDigits(number: string, decimal: Decimals)
    ensures DigitsOf(number, decimal) == [] <==> forall i :: 0 <= i < |number| ==> decimal(number[i]).None?
  {
    if number != "" {
      NoDigits(number[..|number| - 1], decimal);
    }
  }

  /** The sum over the last `n` digits. */
  function TailSum(ds: Digits, n: nat): nat
    requires AllDigits(ds) && n <= |ds|
  {
    if n == 0 then 0 else TailSum(ds, n - 1) + Value(ds[|ds| - n], n % 2 == 0)
  }

  lemma {:induction false} TailSumLast(ds: Digits, n: nat)
    requires AllDigits(ds) && n <= |ds|
    ensures Sum(ds, false) == TailSum(ds, n) + Sum(ds[..|ds| - n], n % 2 == 1)
  {
    if n == 0 {
      assert ds[..|ds|] == ds;
    } else {
      TailSumLast(ds, n - 1);
      assert ds[..|ds| - n + 1][..|ds| - n] == ds[..|ds| - n];
    }
  }

  /** The loop from the right computes the sum that defines validity. */
  method IsLuhnValid(number: string, decimal: Decimals) returns (valid: bool)
    ensures valid == Valid(DigitsOf(number, decimal))
    ensures (forall i :: 0 <= i < |number| ==> decimal(number[i]).None?) ==> !valid
  {
    NoDigits(number, decimal);
    var digits := DigitsOf(number, decimal);
    if digits == [] {
      return false;
    }
    var checksum: nat := 0;
    for idx := 0 to |digits|
      invariant checksum == TailSum(digits, idx)
    {
      var digit := digits[|digits| - 1 - idx];
      if idx % 2 == 1 {
        digit := digit * 2;
        if digit > 9 {
          digit := digit - 9;
        }
      }
      checksum := checksum + digit;
    }
    TailSumLast(digits, |digits|);
    valid := checksum % 10 == 0;
  }
}
