/**
 * Hash numbers with the collision bit set, as add leaves them in an AddPtr of mfbt/HashTable.h when it recycles a
 * tombstone: where they are probed, compared with the hash numbers they come from.
 */
module MarkedHashes {
  import opened DoubleHashing
  import opened HashSlots
  import opened Modular

  /** The largest exponent at which the two hash numbers have the same probe sequence. */
  const SAME_PATH_LOG2: nat := 16

  /** k * m + e modulo m * c. */
  lemma MultipleModulo(k: nat, m: nat, c: nat, e: nat)
    requires 0 < c && e < m
    ensures 0 < m * c && (k * m + e) % (m * c) == k % c * m + e && k % c * m + m <= m * c
    ensures (k * m + e) / (m * c) == k / c
  {
    var q, r := k / c, k % c;
    MulMonotone(r + 1, c, m);
    assert (r + 1) * m == r * m + m && c * m == m * c;
    assert k * m == q * (m * c) + r * m by {
      assert k == q * c + r;
      assert k * m == q * c * m + r * m;
      assert q * c * m == q * (m * c);
    }
    DivModUnique(k * m + e, m * c, q, r * m + e);
  }

  lemma DoubledAbstract(h: nat, p: nat, c: nat, n: nat)
    requires 0 < p && 0 < c && n == 4 * p * c && h % (2 * p) == 0
    ensures (2 * h) % n % (4 * p) == 0 && (2 * h) % n + 4 * p <= n && (2 * h + 2 * p) % n == (2 * h) % n + 2 * p
  {
    var m, k := 4 * p, h / (2 * p);
    assert 2 * h == k * m by {
      assert h == k * (2 * p);
    }
    MultipleModulo(k, m, c, 0);
    MultipleModulo(k, m, c, 2 * p);
    DivModUnique(k % c * m, m, k % c, 0);
  }

  /** One step of the shift of a number without its lowest b + 1 bits. */
  lemma DoubledMultiple(h: HashNumber, b: nat)
    requires b <= 30 && h % Pow2(b + 1) == 0
    ensures var next := (2 * h) % TWO_TO_32;
      next % Pow2(b + 2) == 0 && next + Pow2(b + 2) <= TWO_TO_32
      && (2 * (h + Pow2(b))) % TWO_TO_32 == next + Pow2(b + 1)
  {
    Pow2Constants();
    Pow2Adds(b + 2, 30 - b);
    assert Pow2(b + 1) == 2 * Pow2(b) && Pow2(b + 2) == 4 * Pow2(b);
    hide Pow2;
    DoubledAbstract(h, Pow2(b), Pow2(30 - b), TWO_TO_32);
  }

  lemma {:induction false} ShiftedBit(h: HashNumber, b: nat, l: nat)
    requires b + l <= 31 && h % Pow2(b + 1) == 0 && h + Pow2(b) < TWO_TO_32
    ensures ShiftLeft(h, l) % Pow2(b + l + 1) == 0
    ensures ShiftLeft(h + Pow2(b), l) == ShiftLeft(h, l) + Pow2(b + l)
    decreases l
  {
    if l > 0 {
      DoubledMultiple(h, b);
      hide Pow2;
      ShiftedBit((2 * h) % TWO_TO_32, b + 1, l - 1);
    }
  }

  lemma Quotients(x: nat, m: nat, c: nat, q: nat)
    requires 0 < m && 0 < c && x % (2 * m) == 0 && q == 2 * m * c
    ensures 0 < q && (x + m) / q == x / q
  {
    var k := x / (2 * m);
    assert x == k * (2 * m);
    MultipleModulo(k, 2 * m, c, 0);
    MultipleModulo(k, 2 * m, c, m);
  }

  lemma QuotientPlus(x: nat, m: nat, d: nat, p: nat)
    requires 0 < m && 0 < d && p == m * d && x % (2 * p) == 0
    ensures (x + p) / m == x / m + d && (x / m) % 2 == 0
  {
    var k := x / (2 * p);
    assert x == k * (2 * p);
    assert k * (2 * p) == 2 * (k * d) * m;
    DivModUnique(x, m, 2 * (k * d), 0);
    assert x + p == (2 * (k * d) + d) * m + 0 by {
      assert (2 * (k * d) + d) * m == 2 * (k * d) * m + d * m;
    }
    DivModUnique(x + p, m, 2 * (k * d) + d, 0);
  }

  /** The primary slot does not depend on the collision bit. */
  lemma SameHash1(h: HashNumber, log2: nat)
    requires h % 2 == 0 && log2 < HASH_BITS
    ensures Hash1(WithCollision(h), log2) == Hash1(h, log2)
  {
    assert ShiftRight(h, HashShift(log2)) == ShiftRight(h / 2, HashShift(log2) - 1);
    assert ShiftRight(h + 1, HashShift(log2)) == ShiftRight((h + 1) / 2, HashShift(log2) - 1);
  }

  /** What the collision bit adds to the step. */
  function StepShift(log2: nat): nat {
    if log2 <= SAME_PATH_LOG2 then 0 else Pow2(2 * log2 - HASH_BITS)
  }

  lemma ShiftedQuotients(h: HashNumber, log2: nat)
    requires h % 2 == 0 && log2 < HASH_BITS
    ensures ShiftLeft(h, log2) % (2 * Pow2(log2)) == 0 && Pow2(log2 + 1) == 2 * Pow2(log2)
    ensures ShiftLeft(h + 1, log2) == ShiftLeft(h, log2) + Pow2(log2)
  {
    assert Pow2(0) == 1 && Pow2(1) == 2 && Pow2(log2 + 1) == 2 * Pow2(log2);
    ShiftedBit(h, 0, log2);
  }

  /** The bits the step is made of. */
  function RawStep(h: HashNumber, log2: nat): HashNumber
    requires log2 < HASH_BITS
  {
    ShiftRight(ShiftLeft(h, log2), HashShift(log2))
  }

  lemma RawStepSmall(h: HashNumber, log2: nat)
    requires h % 2 == 0 && log2 < SAME_PATH_LOG2
    ensures RawStep(h + 1, log2) == RawStep(h, log2)
  {
    hide Pow2, ShiftLeft, ShiftRight;
    var x, n := ShiftLeft(h, log2), HashShift(log2);
    ShiftedQuotients(h, log2);
    ShiftRightDivides(x, n);
    ShiftRightDivides(x + Pow2(log2), n);
    Pow2Adds(log2 + 1, n - log2 - 1);
    Quotients(x, Pow2(log2), Pow2(n - log2 - 1), Pow2(n));
  }

  lemma RawStepLarge(h: HashNumber, log2: nat)
    requires h % 2 == 0 && SAME_PATH_LOG2 <= log2 < HASH_BITS
    ensures RawStep(h + 1, log2) == RawStep(h, log2) + Pow2(log2 - HashShift(log2)) && RawStep(h, log2) % 2 == 0
  {
    hide Pow2, ShiftLeft, ShiftRight;
    var x, n := ShiftLeft(h, log2), HashShift(log2);
    ShiftedQuotients(h, log2);
    ShiftRightDivides(x, n);
    ShiftRightDivides(x + Pow2(log2), n);
    Pow2Adds(n, log2 - n);
    QuotientPlus(x, Pow2(n), Pow2(log2 - n), Pow2(log2));
  }

  lemma Hash2Raw(h: HashNumber, log2: nat)
    requires log2 < HASH_BITS
    ensures Hash2(h, log2) == WithCollision(RawStep(h, log2))
  {
    hide ShiftLeft, ShiftRight;
  }

  lemma SumParity(r: int, s: int)
    requires r % 2 == 0
    ensures (r + s) % 2 == s % 2
  {
  }

  lemma BitSet(x: HashNumber)
    ensures WithCollision(x) == if x % 2 == 0 then x + 1 else x
  {
  }

  lemma CollisionAfter(r: HashNumber, shift: nat)
    requires r + shift < TWO_TO_32 && r % 2 == 0
    ensures shift == 1 ==> WithCollision(r + shift) == WithCollision(r)
    ensures shift % 2 == 0 ==> WithCollision(r + shift) == WithCollision(r) + shift
  {
    hide WithCollision;
    SumParity(r, shift);
    BitSet(r);
    BitSet(r + shift);
  }

  /** The step does depend on it, in tables of more than 2^16 slots. */
  lemma ShiftedHash2(h: HashNumber, log2: nat)
    requires h % 2 == 0 && log2 < HASH_BITS
    ensures Hash2(WithCollision(h), log2) == Hash2(h, log2) + StepShift(log2)
  {
    hide Pow2, Hash2, RawStep, StepShift, WithCollision;
    BitSet(h);
    Hash2Raw(h, log2);
    Hash2Raw(h + 1, log2);
    if log2 < SAME_PATH_LOG2 {
      RawStepSmall(h, log2);
      NoStepShift(log2);
    } else {
      RawStepLarge(h, log2);
      StepShiftIs(log2);
      CollisionAfter(RawStep(h, log2), Pow2(log2 - HashShift(log2)));
    }
  }

  lemma NoStepShift(log2: nat)
    requires log2 <= SAME_PATH_LOG2
    ensures StepShift(log2) == 0
  {
  }

  lemma StepShiftIs(log2: nat)
    requires SAME_PATH_LOG2 <= log2 < HASH_BITS
    ensures log2 == SAME_PATH_LOG2 ==> StepShift(log2) == 0 && Pow2(log2 - HashShift(log2)) == 1
    ensures log2 > SAME_PATH_LOG2 ==>
      StepShift(log2) == Pow2(log2 - HashShift(log2)) && Pow2(log2 - HashShift(log2)) % 2 == 0
  {
  }

  /** Up to 2^16 slots, the same slots are probed. */
  lemma SamePath(h: HashNumber, log2: nat, i: nat)
    requires h % 2 == 0 && log2 <= SAME_PATH_LOG2
    ensures Probe(WithCollision(h), log2, i) == Probe(h, log2, i)
  {
    SameHash1(h, log2);
    ShiftedHash2(h, log2);
  }

  /** Going down from h by a and by b leads to the same place only if a and b agree modulo m, and so in parity. */
  lemma SteppedApart(h: int, a: int, b: int, m: int)
    requires m > 0 && m % 2 == 0 && Less(h, a, m) == Less(h, b, m)
    ensures Less(a, 0, m) == Less(b, 0, m) && a % 2 == b % 2
  {
    ModSubRight(h, h - a, h - b, m);
    assert h - (h - a) == a && h - (h - b) == b;
    ModOfMultiple(a, 2, m / 2);
    ModOfMultiple(b, 2, m / 2);
    assert 2 * (m / 2) == m;
  }

  lemma OffAbstract(h: int, step: int, shift: int, m: int, b: int)
    requires 0 < shift < m && m % 2 == 0 && shift % 2 == 0 && step % 2 == 1
    requires b == 0 || b == step || b == 2 * step
    ensures Less(h, step + shift, m) != Less(h, b, m)
  {
    hide Less;
    if Less(h, step + shift, m) == Less(h, b, m) {
      SteppedApart(h, step + shift, b, m);
      ShiftNotZero(step, shift, m);
      assert false;
    }
  }

  lemma StepShiftBelow(log2: nat)
    requires SAME_PATH_LOG2 < log2 <= MAX_LOG2
    ensures 0 < StepShift(log2) < Pow2(log2) && StepShift(log2) % 2 == 0
  {
    StepShiftIs(log2);
    Pow2Monotone(2 * log2 - HASH_BITS, log2);
  }

  /** Beyond that, the second slot probed is none of the first three of the other sequence. */
  lemma OffPath(h: HashNumber, log2: nat, j: nat)
    requires h % 2 == 0 && SAME_PATH_LOG2 < log2 <= MAX_LOG2 && j <= 2
    ensures Probe(WithCollision(h), log2, 1) != Probe(h, log2, j)
  {
    hide Pow2, ProbeFrom, Hash1, Hash2, StepShift;
    Hash1InRange(h, log2);
    SameHash1(h, log2);
    ShiftedHash2(h, log2);
    StepShiftBelow(log2);
    ProbeClosedForm(Hash1(h, log2), Hash2(WithCollision(h), log2), log2, 1);
    ProbeClosedForm(Hash1(h, log2), Hash2(h, log2), log2, j);
    OffAbstract(Hash1(h, log2), Hash2(h, log2), StepShift(log2), Pow2(log2), j * Hash2(h, log2));
    assert 1 * Hash2(WithCollision(h), log2) == Hash2(h, log2) + StepShift(log2);
  }

  lemma ShiftNotZero(step: int, shift: int, m: int)
    requires 0 < shift < m
    ensures Less(step + shift, 0, m) != Less(step, 0, m)
  {
    if (step + shift) % m == step % m {
      ModSubRight(step + shift, step, step + shift, m);
      assert step + shift - step == shift;
      DivModUnique(shift, m, 0, shift);
      DivModUnique(0, m, 0, 0);
    }
  }
}
