/** Modular arithmetic with explicit quotients, shared by the hash table and the string hash. */
module Modular {
  /** 2 to the power n. */
  function Pow2(n: nat): (p: nat)
    ensures p > 0
    ensures n > 0 ==> p % 2 == 0
  {
    if n == 0 then 1 else 2 * Pow2(n - 1)
  }

  lemma {:induction false} Pow2Adds(a: nat, b: nat)
    ensures Pow2(a + b) == Pow2(a) * Pow2(b)
  {
    if a > 0 {
      Pow2Adds(a - 1, b);
      assert Pow2(a + b) == 2 * Pow2(a - 1 + b);
    }
  }

  lemma {:induction false} Pow2Monotone(a: nat, b: nat)
    requires a < b
    ensures Pow2(a) < Pow2(b)
  {
    if a + 1 < b {
      Pow2Monotone(a, b - 1);
    }
  }

  lemma Pow2Constants()
    ensures Pow2(2) == 4 && Pow2(5) == 32 && Pow2(27) == 0x800_0000
    ensures Pow2(29) == 0x2000_0000 && Pow2(30) == 0x4000_0000 && Pow2(32) == 0x1_0000_0000
  {
    assert Pow2(5) == 32;
    Pow2Adds(5, 5);
    assert Pow2(10) == 1024;
    Pow2Adds(10, 10);
    Pow2Adds(20, 5);
    Pow2Adds(25, 2);
    Pow2Adds(27, 2);
    Pow2Adds(27, 3);
    Pow2Adds(30, 2);
  }

  lemma MulMagnitude(d: int, m: int)
    requires m > 0
    ensures d >= 1 ==> d * m >= m
    ensures d <= -1 ==> d * m <= -m
  {
  }

  /** Euclidean division is determined by its quotient and remainder. */
  lemma DivModUnique(x: int, m: int, q: int, r: int)
    requires m > 0 && x == q * m + r && 0 <= r < m
    ensures x % m == r && x / m == q
  {
    var d := x / m - q;
    assert x == (x / m) * m + x % m;
    assert d * m == r - x % m by {
      assert (x / m) * m - q * m == d * m;
    }
    MulMagnitude(d, m);
    assert d == 0;
  }

  lemma MulMonotone(a: int, b: int, m: int)
    requires a <= b && m >= 0
    ensures a * m <= b * m
  {
  }

  lemma QuotientBound(x: int, n: int, m: int)
    requires 0 <= x < n * m && m > 0
    ensures 0 <= x / m < n
  {
    var q := x / m;
    assert q * m <= x;
    if q >= n {
      MulMonotone(n, q, m);
      assert false;
    }
  }

  /** Adding a multiple of the modulus changes nothing. */
  lemma ModAddMultiple(x: int, k: int, m: int)
    requires m > 0
    ensures (x + k * m) % m == x % m
  {
    var q := x / m + k;
    assert x + k * m == q * m + x % m by {
      assert x == (x / m) * m + x % m;
      assert q * m == (x / m) * m + k * m;
    }
    DivModUnique(x + k * m, m, q, x % m);
  }

  lemma ModSubLeft(a: int, b: int, m: int)
    requires m > 0
    ensures (a % m - b) % m == (a - b) % m
  {
    ModAddMultiple(a - b, -(a / m), m);
    assert a - b + -(a / m) * m == a % m - b;
  }

  /** Congruent subtrahends give congruent differences. */
  lemma ModSubRight(a: int, b: int, c: int, m: int)
    requires m > 0 && b % m == c % m
    ensures (a - b) % m == (a - c) % m
  {
    var k := c / m - b / m;
    assert a - b == a - c + k * m by {
      assert b == (b / m) * m + b % m;
      assert c == (c / m) * m + c % m;
    }
    ModAddMultiple(a - c, k, m);
  }

  lemma ModAddLeft(a: int, b: int, m: int)
    requires m > 0
    ensures (a % m + b) % m == (a + b) % m
  {
    ModSubLeft(a, -b, m);
  }

  lemma ModMulLeft(a: int, b: int, m: int)
    requires m > 0
    ensures (a % m * b) % m == (a * b) % m
  {
    ModAddMultiple(a * b, -(a / m) * b, m);
    assert a * b + -(a / m) * b * m == a % m * b by {
      var q := a / m;
      assert a == q * m + a % m;
      assert a * b == q * m * b + a % m * b;
      assert -q * b * m == -(q * m * b);
    }
  }

  /** Reducing first modulo a multiple of m loses nothing modulo m. */
  lemma ModOfMultiple(x: int, m: int, c: int)
    requires m > 0 && c > 0
    ensures m * c > 0
    ensures (x % (m * c)) % m == x % m
  {
    var n := m * c;
    assert n > 0;
    ModAddMultiple(x, -(x / n) * c, m);
    assert x + -(x / n) * c * m == x % n by {
      var q := x / n;
      assert x == q * n + x % n;
      assert q * n == q * c * m;
      assert -q * c * m == -(q * c * m);
    }
  }

  /** Numbers in [0, m) that agree modulo m are equal. */
  lemma ModSmallEqual(a: int, b: int, m: int)
    requires m > 0 && 0 <= a < m && 0 <= b < m && a % m == b % m
    ensures a == b
  {
    DivModUnique(a, m, 0, a);
    DivModUnique(b, m, 0, b);
  }

  /** Every odd number has an inverse modulo a power of two. */
  lemma {:induction false} OddInverse(s: int, n: nat) returns (inv: int, q: int)
    requires s % 2 == 1
    ensures s * inv == 1 + q * Pow2(n)
  {
    if n == 0 {
      inv, q := 1, s - 1;
    } else {
      var inv0, q0 := OddInverse(s, n - 1);
      var p := Pow2(n - 1);
      if q0 % 2 == 0 {
        inv, q := inv0, q0 / 2;
        assert q0 * p == q * (2 * p) by { assert q0 == 2 * q; }
      } else {
        inv, q := inv0 + p, (q0 + s) / 2;
        assert s * inv == s * inv0 + s * p;
        assert q0 * p + s * p == q * (2 * p) by { assert q0 + s == 2 * q; assert (q0 + s) * p == q0 * p + s * p; }
      }
    }
  }

  /** Multiplication by an odd number is injective modulo a power of two. */
  lemma OddMultiplierInjective(s: int, n: nat, a: int, b: int)
    requires s % 2 == 1
    requires (a * s) % Pow2(n) == (b * s) % Pow2(n)
    ensures a % Pow2(n) == b % Pow2(n)
  {
    var m := Pow2(n);
    var inv, q := OddInverse(s, n);
    ModMulLeft(a * s, inv, m);
    ModMulLeft(b * s, inv, m);
    InverseCancels(s, inv, q, m, a);
    InverseCancels(s, inv, q, m, b);
  }

  lemma InverseCancels(s: int, inv: int, q: int, m: int, a: int)
    requires m > 0 && s * inv == 1 + q * m
    ensures (a * s * inv) % m == a % m
  {
    assert a * s * inv == a + (a * q) * m by {
      assert a * s * inv == a * (s * inv);
      assert a * (1 + q * m) == a + a * (q * m);
      assert a * (q * m) == (a * q) * m;
    }
    ModAddMultiple(a, a * q, m);
  }
}
