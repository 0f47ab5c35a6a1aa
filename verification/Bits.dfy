/** Bitwise operations on natural numbers. */
module Bits {
  import opened Modular

  /** Bitwise exclusive or. */
  function Xor(a: nat, b: nat): nat
    decreases a + b
  {
    if a == 0 && b == 0 then 0 else (if a % 2 == b % 2 then 0 else 1) + 2 * Xor(a / 2, b / 2)
  }

  /** Bitwise or. */
  function Or(a: nat, b: nat): nat
    decreases a + b
  {
    if a == 0 && b == 0 then 0 else (if a % 2 == 0 == b % 2 then 0 else 1) + 2 * Or(a / 2, b / 2)
  }

  lemma {:induction false} XorBound(a: nat, b: nat, n: nat)
    requires a < Pow2(n) && b < Pow2(n)
    ensures Xor(a, b) < Pow2(n)
    decreases n
  {
    if 0 < n {
      XorBound(a / 2, b / 2, n - 1);
    }
  }

  /** Exclusive or is injective in each argument. */
  lemma {:induction false} XorInjective(a: nat, b: nat, c: nat, d: nat)
    requires Xor(a, b) == Xor(c, d)
    ensures a == c <==> b == d
    decreases a + b + c + d
  {
    if a != 0 || b != 0 || c != 0 || d != 0 {
      XorInjective(a / 2, b / 2, c / 2, d / 2);
    }
  }

  /** Numbers that share no bits: or adds. */
  lemma {:induction false} OrAdds(high: nat, low: nat, n: nat)
    requires low < Pow2(n)
    ensures Or(high * Pow2(n), low) == high * Pow2(n) + low
    decreases n, high
  {
    if n == 0 {
      OrNothing(high);
    } else {
      assert high * Pow2(n) == 2 * (high * Pow2(n - 1));
      OrAdds(high, low / 2, n - 1);
    }
  }

  lemma {:induction false} OrNothing(a: nat)
    ensures Or(a, 0) == a
  {
    if 0 < a {
      OrNothing(a / 2);
    }
  }

  /** Bitwise and. */
  function And(a: nat, b: nat): nat
    decreases a + b
  {
    if a == 0 && b == 0 then 0 else (if a % 2 == 1 == b % 2 then 1 else 0) + 2 * And(a / 2, b / 2)
  }

  /** Bit k of a. */
  predicate Bit(a: nat, k: nat) {
    if k == 0 then a % 2 == 1 else Bit(a / 2, k - 1)
  }

  lemma {:induction false} BitsOfXorAnd(a: nat, b: nat, k: nat)
    ensures Bit(Xor(a, b), k) <==> Bit(a, k) != Bit(b, k)
    ensures Bit(And(a, b), k) <==> Bit(a, k) && Bit(b, k)
    decreases k
  {
    hide Xor, And;
    XorHalves(a, b);
    AndHalves(a, b);
    if 0 < k {
      BitsOfXorAnd(a / 2, b / 2, k - 1);
    }
  }

  lemma BitHalf(a: nat, k: nat)
    ensures Bit(a, k) == if k == 0 then a % 2 == 1 else Bit(a / 2, k - 1)
  {
  }

  lemma HalfOfSum(low: nat, high: nat, n: nat)
    requires 0 < n
    ensures (low * Pow2(n) + high) / 2 == low * Pow2(n - 1) + high / 2
    ensures (low * Pow2(n) + high) % 2 == high % 2
  {
    assert low * Pow2(n) == 2 * (low * Pow2(n - 1));
  }

  /** The bits of a number put in front of another. */
  lemma {:induction false} BitsOfSum(front: nat, back: nat, n: nat, k: nat)
    requires back < Pow2(n)
    ensures Bit(front * Pow2(n) + back, k) <==> if k < n then Bit(back, k) else Bit(front, k - n)
    decreases n
  {
    hide Bit;
    if n == 0 {
      assert front * Pow2(n) + back == front;
    } else {
      HalfOfSum(front, back, n);
      BitHalf(front * Pow2(n) + back, k);
      BitHalf(back, k);
      if k > 0 {
        BitsOfSum(front, back / 2, n - 1, k - 1);
      }
    }
  }

  lemma XorHalves(a: nat, b: nat)
    ensures Xor(a, b) / 2 == Xor(a / 2, b / 2) && (Xor(a, b) % 2 == 1 <==> (a % 2 == 1) != (b % 2 == 1))
  {
  }

  lemma AndHalves(a: nat, b: nat)
    ensures And(a, b) / 2 == And(a / 2, b / 2) && (And(a, b) % 2 == 1 <==> a % 2 == 1 && b % 2 == 1)
  {
  }

  lemma {:induction false} AndBound(a: nat, b: nat, n: nat)
    requires a < Pow2(n) && b < Pow2(n)
    ensures And(a, b) < Pow2(n)
    decreases n
  {
    if 0 < n {
      AndBound(a / 2, b / 2, n - 1);
    }
  }

  /** All n bits flipped. */
  function Not(a: nat, n: nat): nat
    requires a < Pow2(n)
  {
    Pow2(n) - 1 - a
  }

  /** The top bit of n says whether a number is in the upper half. */
  lemma {:induction false} TopBit(a: nat, n: nat)
    requires 0 < n && a < Pow2(n)
    ensures Bit(a, n - 1) <==> Pow2(n - 1) <= a
  {
    if 1 < n {
      TopBit(a / 2, n - 1);
    }
  }
}
