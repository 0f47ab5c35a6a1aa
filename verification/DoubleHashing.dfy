/** 32-bit hash numbers and the double-hashing probe sequence of mfbt/HashTable.h. */
module DoubleHashing {
  import opened Modular

  const TWO_TO_32: int := 0x1_0000_0000
  const GOLDEN_RATIO: int := 0x9E37_79B9
  const HASH_BITS: nat := 32

  /** log2 of the smallest and of the largest capacity. */
  const MIN_LOG2: nat := 2
  const MAX_LOG2: nat := 30

  type HashNumber = x: int | 0 <= x < 0x1_0000_0000

  const FREE_KEY: HashNumber := 0
  const REMOVED_KEY: HashNumber := 1

  function WrappingMultiply(a: HashNumber, b: HashNumber): HashNumber {
    (a * b) % TWO_TO_32
  }

  function WrappingSubtract(a: HashNumber, b: HashNumber): HashNumber {
    (a - b) % TWO_TO_32
  }

  function ScrambleHashCode(h: HashNumber): HashNumber {
    WrappingMultiply(h, GOLDEN_RATIO)
  }

  predicate IsLiveHash(h: HashNumber) {
    h > REMOVED_KEY
  }

  predicate HasCollisionBit(h: HashNumber) {
    h % 2 == 1
  }

  /** h with the collision bit cleared. */
  function WithoutCollision(h: HashNumber): (r: HashNumber)
    ensures r % 2 == 0 && (r == h || r + 1 == h)
  {
    h - h % 2
  }

  /** h with the collision bit set. */
  function WithCollision(h: HashNumber): (r: HashNumber)
    ensures HasCollisionBit(r) && WithoutCollision(r) == WithoutCollision(h)
  {
    h - h % 2 + 1
  }

  /** The hash cached in a slot: never a reserved value, and its low bit is free for the collision flag. */
  function PrepareHash(code: HashNumber): (r: HashNumber)
    ensures IsLiveHash(r) && !HasCollisionBit(r)
  {
    var keyHash := ScrambleHashCode(code);
    var unreserved := if IsLiveHash(keyHash) then keyHash else WrappingSubtract(keyHash, REMOVED_KEY + 1);
    WithoutCollision(unreserved)
  }

  // Shifts and masks, one bit at a time.

  /** x >> n */
  function ShiftRight(x: HashNumber, n: nat): HashNumber {
    if n == 0 then x else ShiftRight(x / 2, n - 1)
  }

  /** x << n, in 32 bits */
  function ShiftLeft(x: HashNumber, n: nat): HashNumber
    decreases n
  {
    if n == 0 then x else ShiftLeft((2 * x) % TWO_TO_32, n - 1)
  }

  /** x & (2^n - 1) */
  function LowBits(x: HashNumber, n: nat): (r: HashNumber)
    ensures r <= x
  {
    if n == 0 then 0 else x % 2 + 2 * LowBits(x / 2, n - 1)
  }

  lemma {:induction false} ShiftRightDivides(x: HashNumber, n: nat)
    ensures ShiftRight(x, n) == x / Pow2(n)
  {
    if n > 0 {
      ShiftRightDivides(x / 2, n - 1);
      HalveThenDivide(x, Pow2(n - 1));
    }
  }

  lemma HalveThenDivide(x: nat, p: nat)
    requires p > 0
    ensures x / 2 / p == x / (2 * p)
  {
    var q := x / 2 / p;
    var r := x / 2 - q * p;
    assert 0 <= r < p by {
      assert x / 2 == q * p + x / 2 % p;
    }
    assert x == q * (2 * p) + (2 * r + x % 2) by {
      assert x == 2 * (x / 2) + x % 2;
      assert q * (2 * p) == 2 * (q * p);
    }
    DivModUnique(x, 2 * p, q, 2 * r + x % 2);
  }

  lemma {:induction false} LowBitsIsMod(x: HashNumber, n: nat)
    ensures LowBits(x, n) == x % Pow2(n)
  {
    if n > 0 {
      LowBitsIsMod(x / 2, n - 1);
      HalveThenMod(x, Pow2(n - 1));
    }
  }

  lemma HalveThenMod(x: nat, p: nat)
    requires p > 0
    ensures x % 2 + 2 * (x / 2 % p) == x % (2 * p)
  {
    var q, r := x / 2 / p, x / 2 % p;
    assert x == q * (2 * p) + (x % 2 + 2 * r) by {
      assert x / 2 == q * p + r;
      assert q * (2 * p) == 2 * (q * p);
    }
    DivModUnique(x, 2 * p, q, x % 2 + 2 * r);
  }

  function HashShift(log2: nat): nat
    requires log2 <= HASH_BITS
  {
    HASH_BITS - log2
  }

  /** The primary index: the top log2 bits. */
  function Hash1(keyHash: HashNumber, log2: nat): HashNumber
    requires log2 <= HASH_BITS
  {
    ShiftRight(keyHash, HashShift(log2))
  }

  lemma Hash1InRange(keyHash: HashNumber, log2: nat)
    requires log2 <= HASH_BITS
    ensures Hash1(keyHash, log2) < Pow2(log2)
  {
    ShiftRightDivides(keyHash, HashShift(log2));
    Pow2Constants();
    Pow2Adds(log2, HashShift(log2));
    QuotientBound(keyHash, Pow2(log2), Pow2(HashShift(log2)));
  }

  /** The probe step: the next log2 bits, made odd. */
  function Hash2(keyHash: HashNumber, log2: nat): (step: HashNumber)
    requires log2 <= HASH_BITS
    ensures step % 2 == 1
  {
    WithCollision(ShiftRight(ShiftLeft(keyHash, log2), HashShift(log2)))
  }

  /** The index probed after h1. */
  function ApplyDoubleHash(h1: HashNumber, step: HashNumber, log2: nat): HashNumber {
    LowBits(WrappingSubtract(h1, step), log2)
  }

  /** The 32-bit wrap-around does not disturb the step modulo the capacity. */
  lemma AppliedStep(h1: HashNumber, step: HashNumber, log2: nat)
    requires log2 <= HASH_BITS
    ensures ApplyDoubleHash(h1, step, log2) == (h1 - step) % Pow2(log2)
  {
    Pow2Constants();
    Pow2Adds(log2, HashShift(log2));
    LowBitsIsMod(WrappingSubtract(h1, step), log2);
    ModOfMultiple(h1 - step, Pow2(log2), Pow2(HashShift(log2)));
  }

  /** i applications of ApplyDoubleHash, starting at slot h1. */
  function ProbeFrom(h1: HashNumber, step: HashNumber, log2: nat, i: nat): (r: HashNumber)
    requires log2 <= HASH_BITS && h1 < Pow2(log2)
    ensures r < Pow2(log2)
  {
    if i == 0 then h1
    else
      AppliedStep(ProbeFrom(h1, step, log2, i - 1), step, log2);
      ApplyDoubleHash(ProbeFrom(h1, step, log2, i - 1), step, log2)
  }

  /** The i-th slot index probed for keyHash in a table of 2^log2 slots. */
  function Probe(keyHash: HashNumber, log2: nat, i: nat): (r: HashNumber)
    requires log2 <= HASH_BITS
    ensures r < Pow2(log2)
  {
    Hash1InRange(keyHash, log2);
    ProbeFrom(Hash1(keyHash, log2), Hash2(keyHash, log2), log2, i)
  }

  /** i steps of s back from h, and one. */
  function Back(h: int, s: int, i: nat, m: int): int
    requires m > 0
  {
    (h - i * s) % m
  }

  function Less(x: int, s: int, m: int): int
    requires m > 0
  {
    (x - s) % m
  }

  lemma ProbeFromStep(h: HashNumber, s: HashNumber, log2: nat, i: nat)
    requires log2 <= HASH_BITS && h < Pow2(log2) && 0 < i
    ensures ProbeFrom(h, s, log2, i) == Less(ProbeFrom(h, s, log2, i - 1), s, Pow2(log2))
  {
    hide Pow2, ApplyDoubleHash;
    AppliedStep(ProbeFrom(h, s, log2, i - 1), s, log2);
  }

  lemma ProbeFromStart(h: HashNumber, s: HashNumber, log2: nat)
    requires log2 <= HASH_BITS && h < Pow2(log2)
    ensures ProbeFrom(h, s, log2, 0) == Back(h, s, 0, Pow2(log2))
  {
    hide Pow2;
    DivModUnique(h, Pow2(log2), 0, h);
    assert h - 0 * s == h;
  }

  lemma {:induction false} ProbeIsBack(h: HashNumber, s: HashNumber, log2: nat, i: nat)
    requires log2 <= HASH_BITS && h < Pow2(log2)
    ensures ProbeFrom(h, s, log2, i) == Back(h, s, i, Pow2(log2))
  {
    hide *;
    if i == 0 {
      ProbeFromStart(h, s, log2);
    } else {
      ProbeIsBack(h, s, log2, i - 1);
      ProbeFromStep(h, s, log2, i);
      SteppedBack(h, s, Pow2(log2), i);
    }
  }

  lemma ProbeClosedForm(h: HashNumber, s: HashNumber, log2: nat, i: nat)
    requires log2 <= HASH_BITS && h < Pow2(log2)
    ensures ProbeFrom(h, s, log2, i) == (h - i * s) % Pow2(log2)
  {
    hide Pow2, ProbeFrom;
    ProbeIsBack(h, s, log2, i);
  }

  lemma SteppedBack(h: int, s: int, m: int, i: nat)
    requires m > 0 && 0 < i
    ensures Less(Back(h, s, i - 1, m), s, m) == Back(h, s, i, m)
  {
    assert h - (i - 1) * s - s == h - i * s;
    ModSubLeft(h - (i - 1) * s, s, m);
  }

  lemma {:induction false} ShiftLeftMultiplies(x: HashNumber, n: nat)
    ensures ShiftLeft(x, n) == x * Pow2(n) % 0x1_0000_0000
    decreases n
  {
    if n == 0 {
      DivModUnique(x, 0x1_0000_0000, 0, x);
    } else {
      ShiftLeftMultiplies((2 * x) % TWO_TO_32, n - 1);
      ModMulLeft(2 * x, Pow2(n - 1), 0x1_0000_0000);
      assert 2 * x * Pow2(n - 1) == x * Pow2(n);
    }
  }

  /** The first log2 of 32 bits. */
  function TopBits(x: int, log2: nat): int
    requires log2 <= 32
  {
    x / Pow2(32 - log2)
  }

  /** The next log2 bits, in 32-bit arithmetic. */
  function NextBits(x: int, log2: nat): int
    requires log2 <= 32
  {
    x * Pow2(log2) % 0x1_0000_0000 / Pow2(32 - log2)
  }

  /** The odd one of a number and the next. */
  function MadeOdd(x: int): int {
    if x % 2 == 1 then x else x + 1
  }

  lemma HashesAre(keyHash: HashNumber, log2: nat)
    requires log2 <= 32
    ensures Hash1(keyHash, log2) == TopBits(keyHash, log2)
    ensures Hash2(keyHash, log2) == MadeOdd(NextBits(keyHash, log2))
  {
    hide Pow2, ShiftLeft, ShiftRight;
    ShiftRightDivides(keyHash, HashShift(log2));
    ShiftLeftMultiplies(keyHash, log2);
    ShiftRightDivides(ShiftLeft(keyHash, log2), HashShift(log2));
  }

  lemma ProbeIs(keyHash: HashNumber, log2: nat, i: nat)
    requires log2 <= 32
    ensures Hash1(keyHash, log2) < Pow2(log2)
    ensures Probe(keyHash, log2, i) == ProbeFrom(Hash1(keyHash, log2), Hash2(keyHash, log2), log2, i)
  {
    hide Hash1, Hash2, ProbeFrom, Pow2;
    Hash1InRange(keyHash, log2);
  }

  /** From the top log2 bits of the hash number, each probe goes back by the next log2 bits, made odd. */
  lemma ProbePath(keyHash: HashNumber, log2: nat, i: nat)
    requires log2 <= 32
    ensures Probe(keyHash, log2, i) == (TopBits(keyHash, log2) - i * MadeOdd(NextBits(keyHash, log2))) % Pow2(log2)
  {
    hide Hash1, Hash2, Probe, ProbeFrom, TopBits, NextBits, MadeOdd, Pow2;
    ProbeIs(keyHash, log2, i);
    ProbeClosedForm(Hash1(keyHash, log2), Hash2(keyHash, log2), log2, i);
    HashesAre(keyHash, log2);
  }

  /** A product with the golden ratio, in 32 bits; its low bit is cleared, and 0 and 1 give way to another number. */
  lemma PreparedIs(code: HashNumber)
    ensures var product := code * 0x9E37_79B9 % 0x1_0000_0000;
      PrepareHash(code) == if product < 2 then 0xFFFF_FFFE else product - product % 2
  {
  }

  /** Within the first `capacity` probes every slot is visited. */
  lemma ProbeReaches(keyHash: HashNumber, log2: nat, t: nat) returns (i: nat)
    requires log2 <= HASH_BITS && t < Pow2(log2)
    ensures i < Pow2(log2) && Probe(keyHash, log2, i) == t
  {
    Hash1InRange(keyHash, log2);
    i := StepsReach(Hash1(keyHash, log2), Hash2(keyHash, log2), log2, t);
  }

  lemma StepsReach(h: HashNumber, s: HashNumber, log2: nat, t: nat) returns (i: nat)
    requires log2 <= HASH_BITS && h < Pow2(log2) && t < Pow2(log2) && s % 2 == 1
    ensures i < Pow2(log2) && ProbeFrom(h, s, log2, i) == t
  {
    var m := Pow2(log2);
    var inv, q := OddInverse(s, log2);
    i := ((h - t) * inv) % m;
    ReachedSlot(h, s, m, inv, q, t, i);
    ProbeClosedForm(h, s, log2, i);
  }

  lemma ReachedSlot(h: int, s: int, m: int, inv: int, q: int, t: int, i: int)
    requires m > 0 && s * inv == 1 + q * m && 0 <= t < m && i == ((h - t) * inv) % m
    ensures (h - i * s) % m == t
  {
    // i * s is congruent to (h - t) * inv * s, hence to h - t.
    ModMulLeft((h - t) * inv, s, m);
    assert (h - t) * inv * s == (h - t) * s * inv;
    InverseCancels(s, inv, q, m, h - t);
    ModSubRight(h, i * s, h - t, m);
    DivModUnique(t, m, 0, t);
  }

  /** ... and none is visited twice: the first `capacity` probes are a permutation of the slots. */
  lemma ProbeInjective(keyHash: HashNumber, log2: nat, i: nat, j: nat)
    requires log2 <= HASH_BITS && i < Pow2(log2) && j < Pow2(log2)
    requires Probe(keyHash, log2, i) == Probe(keyHash, log2, j)
    ensures i == j
  {
    Hash1InRange(keyHash, log2);
    StepsInjective(Hash1(keyHash, log2), Hash2(keyHash, log2), log2, i, j);
  }

  lemma StepsInjective(h: HashNumber, s: HashNumber, log2: nat, i: nat, j: nat)
    requires log2 <= HASH_BITS && h < Pow2(log2) && s % 2 == 1
    requires i < Pow2(log2) && j < Pow2(log2)
    requires ProbeFrom(h, s, log2, i) == ProbeFrom(h, s, log2, j)
    ensures i == j
  {
    ProbeClosedForm(h, s, log2, i);
    ProbeClosedForm(h, s, log2, j);
    CongruentSteps(h, s, log2, i, j);
  }

  lemma CongruentSteps(h: int, s: int, n: nat, i: nat, j: nat)
    requires s % 2 == 1 && i < Pow2(n) && j < Pow2(n)
    requires (h - i * s) % Pow2(n) == (h - j * s) % Pow2(n)
    ensures i == j
  {
    ModSubRight(h, h - i * s, h - j * s, Pow2(n));
    assert h - (h - i * s) == i * s && h - (h - j * s) == j * s;
    OddMultiplierInjective(s, n, i, j);
    ModSmallEqual(i, j, Pow2(n));
  }

  /** The exponent of the least power of two that is at least x. */
  function CeilingLog2(x: nat): (r: nat)
    ensures x <= Pow2(r)
    ensures r > 0 ==> Pow2(r - 1) < x
  {
    if x <= 1 then 0 else 1 + CeilingLog2((x + 1) / 2)
  }
}
