// Bitwise exclusive or and or on unsigned numbers, bit by bit.
module Bits {
  function Xor(a: nat, b: nat): (x: nat)
    decreases a + b
  {
    if a == 0 && b == 0 then 0 else 2 * Xor(a / 2, b / 2) + (if a % 2 == b % 2 then 0 else 1)
  }

  function Or(a: nat, b: nat): (x: nat)
    decreases a + b
  {
    if a == 0 && b == 0 then 0 else 2 * Or(a / 2, b / 2) + (if a % 2 == 1 || b % 2 == 1 then 1 else 0)
  }

  lemma {:induction false} XorIsZeroIffEqual(a: nat, b: nat)
    ensures Xor(a, b) == 0 <==> a == b
    decreases a + b
  {
    if a != 0 || b != 0 {
      XorIsZeroIffEqual(a / 2, b / 2);
    }
  }

  lemma {:induction false} OrIsZeroIffBothAre(a: nat, b: nat)
    ensures Or(a, b) == 0 <==> a == 0 && b == 0
    decreases a + b
  {
    if a != 0 || b != 0 {
      OrIsZeroIffBothAre(a / 2, b / 2);
    }
  }

  lemma {:induction false} XorTwice(a: nat, b: nat)
    ensures Xor(Xor(a, b), b) == a
    decreases a + b
  {
    if a != 0 || b != 0 {
      XorTwice(a / 2, b / 2);
      var x := Xor(a, b);
      assert x / 2 == Xor(a / 2, b / 2);
    }
  }

  function Pow2(k: nat): (p: nat)
    ensures p > 0
  {
    if k == 0 then 1 else 2 * Pow2(k - 1)
  }

  // Numbers made of two parts are combined part by part.
  lemma {:induction false} XorOfParts(a: nat, b: nat, x: nat, y: nat, k: nat)
    requires x < Pow2(k) && y < Pow2(k)
    ensures Xor(a * Pow2(k) + x, b * Pow2(k) + y) == Xor(a, b) * Pow2(k) + Xor(x, y)
    decreases k
  {
    hide Xor;
    XorUnfolds(0, 0);
    if k > 0 {
      var p, m := Pow2(k), Pow2(k - 1);
      assert p == 2 * m;
      hide Pow2;
      XorOfParts(a, b, x / 2, y / 2, k - 1);
      Doubled(a, x, p, m);
      Doubled(b, y, p, m);
      Doubled(Xor(a, b), 0, p, m);
      XorUnfolds(a * p + x, b * p + y);
      XorUnfolds(x, y);
    }
  }

  lemma XorUnfolds(a: nat, b: nat)
    ensures Xor(a, b) == 2 * Xor(a / 2, b / 2) + (if a % 2 == b % 2 then 0 else 1)
  {
  }

  lemma Doubled(a: nat, x: nat, p: nat, m: nat)
    requires p == 2 * m
    ensures a * p == 2 * (a * m)
    ensures (a * p + x) / 2 == a * m + x / 2 && (a * p + x) % 2 == x % 2
  {
  }

  lemma {:induction false} XorFits(a: nat, b: nat, k: nat)
    requires a < Pow2(k) && b < Pow2(k)
    ensures Xor(a, b) < Pow2(k)
    decreases k
  {
    if k > 0 {
      XorFits(a / 2, b / 2, k - 1);
    }
  }

  // Against all ones every bit is turned over.
  lemma {:induction false} XorOnes(b: nat, k: nat)
    requires b < Pow2(k)
    ensures Xor(b, Pow2(k) - 1) == Pow2(k) - 1 - b
    decreases k
  {
    XorUnfolds(b, Pow2(k) - 1);
    hide Xor;
    if k == 0 {
      XorUnfolds(0, 0);
    } else {
      XorOnes(b / 2, k - 1);
      assert (Pow2(k) - 1) / 2 == Pow2(k - 1) - 1 && (Pow2(k) - 1) % 2 == 1;
    }
  }
}
