/** Bitwise exclusive-or and powers of two on unbounded naturals.

The source adds field elements with the machine operator `^`; here it is written
out bit by bit, so that its laws hold for symbols of every width. */
module Bits {

  function Pow2(k: nat): (r: nat)
    ensures r > 0
  {
    if k == 0 then 1 else 2 * Pow2(k - 1)
  }

  function Xor(a: nat, b: nat): nat
    decreases a + b
  {
    if a == 0 then b
    else if b == 0 then a
    else 2 * Xor(a / 2, b / 2) + (a + b) % 2
  }

  lemma {:induction false} XorZero(a: nat)
    ensures Xor(a, 0) == a && Xor(0, a) == a
  {
  }

  /** The defining equation, without the base cases of the recursion. */
  lemma {:induction false} XorHalf(a: nat, b: nat)
    ensures Xor(a, b) / 2 == Xor(a / 2, b / 2)
    ensures Xor(a, b) % 2 == (a + b) % 2
  {
  }

  lemma {:induction false} XorComm(a: nat, b: nat)
    ensures Xor(a, b) == Xor(b, a)
    decreases a + b
  {
    if a != 0 && b != 0 {
      XorComm(a / 2, b / 2);
    }
  }

  lemma {:induction false} XorSelf(a: nat)
    ensures Xor(a, a) == 0
  {
    if a != 0 {
      XorSelf(a / 2);
    }
  }

  /** Two naturals with the same halves and the same parity are equal. */
  lemma {:induction false} HalfParity(a: nat, b: nat)
    requires a / 2 == b / 2 && a % 2 == b % 2
    ensures a == b
  {
  }

  lemma {:induction false} XorAssoc(a: nat, b: nat, c: nat)
    ensures Xor(Xor(a, b), c) == Xor(a, Xor(b, c))
    decreases a + b + c
  {
    XorZero(a);
    XorZero(b);
    XorZero(c);
    XorZero(Xor(a, b));
    XorZero(Xor(b, c));
    if a != 0 && b != 0 && c != 0 {
      XorAssocStep(a, b, c);
      XorAssoc(a / 2, b / 2, c / 2);
      HalfParity(Xor(Xor(a, b), c), Xor(a, Xor(b, c)));
    }
  }

  lemma {:induction false} XorAssocStep(a: nat, b: nat, c: nat)
    ensures Xor(Xor(a, b), c) / 2 == Xor(Xor(a / 2, b / 2), c / 2)
    ensures Xor(a, Xor(b, c)) / 2 == Xor(a / 2, Xor(b / 2, c / 2))
    ensures Xor(Xor(a, b), c) % 2 == Xor(a, Xor(b, c)) % 2
  {
    hide Xor;
    XorHalf(a, b);
    XorHalf(b, c);
    XorHalf(Xor(a, b), c);
    XorHalf(a, Xor(b, c));
  }

  lemma {:induction false} XorBound(a: nat, b: nat, k: nat)
    requires a < Pow2(k) && b < Pow2(k)
    ensures Xor(a, b) < Pow2(k)
    decreases k
  {
    if a != 0 && b != 0 {
      XorBound(a / 2, b / 2, k - 1);
    }
  }

  /** A number below a power of two is joined to that power by exclusive-or as by addition. */
  lemma {:induction false} XorTop(x: nat, k: nat)
    requires x < Pow2(k)
    ensures Xor(Pow2(k), x) == Pow2(k) + x
  {
    if k != 0 && x != 0 {
      XorTop(x / 2, k - 1);
      XorHalf(Pow2(k), x);
      HalfParity(Xor(Pow2(k), x), Pow2(k) + x);
    }
  }

  lemma {:induction false} XorDouble(a: nat, b: nat)
    ensures Xor(2 * a, 2 * b) == 2 * Xor(a, b)
  {
  }

  /** `(a ^ b) ^ (c ^ d)` regrouped by columns. */
  lemma {:induction false} XorSwap(a: nat, b: nat, c: nat, d: nat)
    ensures Xor(Xor(a, b), Xor(c, d)) == Xor(Xor(a, c), Xor(b, d))
  {
    hide Xor;
    XorAssoc(a, b, Xor(c, d));
    XorAssoc(b, c, d);
    XorComm(b, c);
    XorAssoc(c, b, d);
    XorAssoc(a, c, Xor(b, d));
  }

  /** Adding the same element twice takes it away again. */
  lemma {:induction false} XorCancel(a: nat, b: nat)
    ensures Xor(a, Xor(a, b)) == b
    ensures Xor(Xor(b, a), a) == b
  {
    hide Xor;
    XorAssoc(a, a, b);
    XorAssoc(b, a, a);
    XorSelf(a);
    XorZero(b);
  }

  lemma {:induction false} XorZeroEqual(a: nat, b: nat)
    ensures Xor(a, b) == 0 <==> a == b
  {
    hide Xor;
    XorSelf(a);
    XorCancel(a, b);
    XorZero(a);
  }

  /** `(a ^ b) ^ (b ^ c)` drops the middle element. */
  lemma {:induction false} XorMiddle(a: nat, b: nat, c: nat)
    ensures Xor(Xor(a, b), Xor(b, c)) == Xor(a, c)
  {
    hide Xor;
    XorAssoc(a, b, Xor(b, c));
    XorCancel(b, c);
  }

  lemma {:induction false} Pow2Monotone(j: nat, k: nat)
    requires j <= k
    ensures Pow2(j) <= Pow2(k)
    decreases k
  {
    if j < k {
      Pow2Monotone(j, k - 1);
    }
  }

  /** A multiple other than zero is at least as far from zero as what it is a multiple of. */
  lemma {:induction false} MultipleBound(k: int, n: int)
    requires n >= 0
    ensures k >= 1 ==> k * n >= n
    ensures k <= -1 ==> k * n <= -n
  {
  }
}
