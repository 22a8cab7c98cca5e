// std::to_string for integers, and the reading of decimal digits.
module Decimal {
  import opened Machine

  const ZERO: Byte := 0x30
  const MINUS: Byte := 0x2D

  predicate IsDigit(b: Byte) { 0x30 <= b <= 0x39 }

  ghost predicate AllDigits(s: Text)
  {
    forall i | 0 <= i < |s| :: IsDigit(s[i])
  }

  function Digits(n: nat): (s: Text)
    ensures |s| > 0
    ensures AllDigits(s)
    ensures n > 0 ==> s[0] != ZERO
    ensures n == 0 ==> s == [ZERO]
  {
    if n < 10 then [ZERO + n] else Digits(n / 10) + [ZERO + n % 10]
  }

  function ToText(n: int): (s: Text)
    ensures |s| > 0
    ensures n >= 0 ==> AllDigits(s)
    ensures n < 0 ==> s[0] == MINUS
  {
    if n < 0 then [MINUS] + Digits(-n) else Digits(n)
  }

  // The number a run of digits denotes, most significant first.
  function Value(s: Text): (n: nat)
    requires AllDigits(s)
  {
    if s == [] then 0 else Value(s[..|s| - 1]) * 10 + (s[|s| - 1] - ZERO)
  }

  lemma {:induction false} DigitsDenoteTheNumber(n: nat)
    ensures Value(Digits(n)) == n
    ensures |Digits(n)| > 1 ==> Digits(n)[0] != ZERO
  {
    var s := Digits(n);
    if n < 10 {
      assert s[..0] == [];
      assert Value(s[..0]) == 0;
    } else {
      DigitsDenoteTheNumber(n / 10);
      assert s[..|s| - 1] == Digits(n / 10);
    }
  }

  lemma {:induction false} DigitsAreShort(n: nat, k: nat)
    requires k > 0
    requires n < Pow10(k)
    ensures |Digits(n)| <= k
  {
    if n >= 10 {
      assert k > 1;
      DigitsAreShort(n / 10, k - 1);
    }
  }

  function Pow10(k: nat): (p: nat)
    ensures p > 0
  {
    if k == 0 then 1 else 10 * Pow10(k - 1)
  }

  // The sign, and the order of the digits.
  lemma KnownTexts()
    ensures ToText(120) == [0x31, 0x32, 0x30] && ToText(-7) == [0x2D, 0x37] && ToText(0) == [0x30]
  {
    assert Digits(12) == Digits(1) + [0x32];
  }
}
