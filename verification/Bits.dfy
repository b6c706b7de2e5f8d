/** Bytes and the bitwise operators the sources use, on natural numbers. */
module Bits {

  type Byte = x: int | 0 <= x < 256

  type Bit = x: int | 0 <= x < 2

  function Pow2(n: nat): (p: nat)
    ensures p > 0
  {
    if n == 0 then 1 else 2 * Pow2(n - 1)
  }

  /** C's `a | b`. */
  function Or(a: nat, b: nat): nat
    decreases a + b
  {
    if a == 0 && b == 0 then 0
    else (if a % 2 == 1 || b % 2 == 1 then 1 else 0) + 2 * Or(a / 2, b / 2)
  }

  /** C's `a ^ b`. */
  function Xor(a: nat, b: nat): nat
    decreases a + b
  {
    if a == 0 && b == 0 then 0 else (a + b) % 2 + 2 * Xor(a / 2, b / 2)
  }

  /** C's `a >> i`. */
  function Shr(a: nat, i: nat): nat {
    if i == 0 then a else Shr(a / 2, i - 1)
  }

  lemma {:induction false} OrZero(a: nat)
    ensures Or(a, 0) == a
  {
    if a > 0 {
      OrZero(a / 2);
    }
  }

  /** OR-ing a field above bit `k` onto a value below bit `k` is addition. */
  lemma {:induction false} OrDisjoint(a: nat, n: nat, k: nat)
    requires a < Pow2(k)
    ensures Or(a, n * Pow2(k)) == a + n * Pow2(k)
    ensures Or(n * Pow2(k), a) == a + n * Pow2(k)
  {
    if k == 0 {
      OrZero(n);
      OrSymmetric(a, n * Pow2(k));
    } else {
      var b := n * Pow2(k);
      assert b == 2 * (n * Pow2(k - 1));
      OrDisjoint(a / 2, n, k - 1);
      assert Or(a, b) == a + b;
      OrSymmetric(a, b);
    }
  }

  lemma {:induction false} OrSymmetric(a: nat, b: nat)
    ensures Or(a, b) == Or(b, a)
    decreases a + b
  {
    if a != 0 || b != 0 {
      OrSymmetric(a / 2, b / 2);
    }
  }

  /** The lowest bit of `a ^ b`, and the rest of it. */
  lemma {:induction false} XorHalves(a: nat, b: nat)
    ensures Xor(a, b) % 2 == (a + b) % 2 && Xor(a, b) / 2 == Xor(a / 2, b / 2)
  {
    assert Xor(0, 0) == 0;
    var high := Xor(a / 2, b / 2);
    assert Xor(a, b) == (a + b) % 2 + 2 * high;
  }

  /** Bit `i` of `a ^ b` is the sum of the two bits. */
  lemma {:induction false} XorBit(a: nat, b: nat, i: nat)
    ensures Shr(Xor(a, b), i) % 2 == (Shr(a, i) % 2 + Shr(b, i) % 2) % 2
    decreases i
  {
    XorHalves(a, b);
    hide Xor;
    if i > 0 {
      XorBit(a / 2, b / 2, i - 1);
    } else {
      assert (a + b) % 2 == (a % 2 + b % 2) % 2;
    }
  }

  lemma {:induction false} XorZero(a: nat)
    ensures Xor(a, 0) == a
  {
    if a > 0 {
      XorZero(a / 2);
    }
  }

  lemma {:induction false} XorBound(a: nat, b: nat, k: nat)
    requires a < Pow2(k) && b < Pow2(k)
    ensures Xor(a, b) < Pow2(k)
  {
    if k > 0 {
      XorBound(a / 2, b / 2, k - 1);
    }
  }

  lemma Pow2Is256()
    ensures Pow2(8) == 256
  {
    assert Pow2(4) == 16;
    assert Pow2(8) == 16 * Pow2(4);
  }

  lemma {:induction false} Pow2Add(a: nat, b: nat)
    ensures Pow2(a + b) == Pow2(a) * Pow2(b)
  {
    if a > 0 {
      Pow2Add(a - 1, b);
      assert Pow2(a) * Pow2(b) == 2 * (Pow2(a - 1) * Pow2(b));
    }
  }
}
