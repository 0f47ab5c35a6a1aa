/** Capacity arithmetic of mfbt/HashTable.h: the 3/4 load limit and the capacities it allows. */
module TableSizing {
  import opened Modular
  import opened DoubleHashing

  const MIN_CAPACITY: nat := 4
  const MAX_INIT: nat := 0x2000_0000
  const MAX_CAPACITY: nat := 0x4000_0000

  /** The most entries any table can hold: 3/4 of the largest capacity. */
  const MAX_ENTRIES: nat := 0x3000_0000

  function RoundUpPow2(x: nat): nat {
    Pow2(CeilingLog2(x))
  }

  /** The capacity chosen for len entries, in 32-bit arithmetic. */
  function BestCapacity(len: nat): nat {
    var capacity := ((len * 4 + 3 - 1) % TWO_TO_32) / 3;
    if capacity < MIN_CAPACITY then MIN_CAPACITY else RoundUpPow2(capacity)
  }

  /** A capacity suits len entries when inserting them all never rehashes. */
  ghost predicate Holds(capacity: nat, len: nat) {
    4 * len <= 3 * capacity
  }

  lemma {:induction false} CeilingLog2Unique(x: nat, n: nat)
    requires x <= Pow2(n) && (n > 0 ==> Pow2(n - 1) < x)
    ensures CeilingLog2(x) == n
  {
    var r := CeilingLog2(x);
    if r < n {
      if r < n - 1 {
        Pow2Monotone(r, n - 1);
      }
    } else if n < r {
      if n < r - 1 {
        Pow2Monotone(n, r - 1);
      }
    }
  }

  lemma CeilingLog2OfPow2(n: nat)
    ensures CeilingLog2(Pow2(n)) == n
  {
    CeilingLog2Unique(Pow2(n), n);
  }

  lemma SmallerExponent(a: nat, b: nat)
    requires a <= b
    ensures Pow2(a) <= Pow2(b)
  {
    if a < b {
      Pow2Monotone(a, b);
    }
  }

  lemma CeilingLog2AtMost(x: nat, n: nat)
    requires x <= Pow2(n)
    ensures CeilingLog2(x) <= n
  {
    var r := CeilingLog2(x);
    if n < r {
      SmallerExponent(n, r - 1);
    }
  }

  /** The division by the load limit, rounded up; it does not overflow 32 bits for any table that can exist. */
  function MinimalCapacity(len: nat): nat {
    (len * 4 + 2) / 3
  }

  lemma NoOverflow(len: nat)
    requires len <= MAX_ENTRIES
    ensures (len * 4 + 3 - 1) % TWO_TO_32 == len * 4 + 2
    ensures MinimalCapacity(len) <= MAX_CAPACITY
  {
  }

  lemma BestCapacityForm(len: nat)
    requires len <= MAX_ENTRIES
    ensures BestCapacity(len) == if MinimalCapacity(len) < 4 then 4 else Pow2(CeilingLog2(MinimalCapacity(len)))
    ensures MinimalCapacity(len) <= MAX_CAPACITY
  {
    NoOverflow(len);
  }

  lemma CeilingLog2AtLeast2(x: nat)
    requires x >= 4
    ensures CeilingLog2(x) >= 2
  {
    assert Pow2(0) == 1 && Pow2(1) == 2;
  }

  /** The best capacity is a legal power of two and suits len entries ... */
  lemma BestCapacityFits(len: nat)
    requires len <= MAX_ENTRIES
    ensures Holds(BestCapacity(len), len)
    ensures MIN_LOG2 <= CeilingLog2(BestCapacity(len)) <= MAX_LOG2
    ensures Pow2(CeilingLog2(BestCapacity(len))) == BestCapacity(len)
  {
    BestCapacityForm(len);
    var capacity := MinimalCapacity(len);
    if capacity < 4 {
      assert Pow2(2) == 4;
      CeilingLog2OfPow2(2);
    } else {
      MaxCapacityIsPow2();
      CeilingLog2AtMost(capacity, MAX_LOG2);
      CeilingLog2AtLeast2(capacity);
      CeilingLog2OfPow2(CeilingLog2(capacity));
    }
  }

  lemma MaxCapacityIsPow2()
    ensures Pow2(MAX_LOG2) == MAX_CAPACITY
  {
    Pow2Constants();
  }

  lemma ExponentBelowMax(n: nat)
    requires Pow2(n) <= MAX_CAPACITY
    ensures n <= MAX_LOG2
  {
    MaxCapacityIsPow2();
    if n > MAX_LOG2 {
      Pow2Monotone(MAX_LOG2, n);
    }
  }

  lemma CapacityIsMultipleOf4(n: nat)
    requires n >= MIN_LOG2
    ensures Pow2(n) % 4 == 0
  {
    var p := Pow2(n - 2);
    assert Pow2(n - 1) == 2 * p;
    assert Pow2(n) == 4 * p;
  }

  /** Keeping and doubling a legal capacity, for changeTableSize. */
  lemma NextSizes(n: nat)
    requires MIN_LOG2 <= n <= MAX_LOG2
    ensures CeilingLog2(Pow2(n)) == n
    ensures CeilingLog2(Pow2(n) * 2) == n + 1 && Pow2(n + 1) == Pow2(n) * 2
    ensures Pow2(n) * 2 > MAX_CAPACITY ==> Pow2(n) == MAX_CAPACITY
    ensures Pow2(n) <= MAX_CAPACITY
  {
    hide CeilingLog2;
    Doubled(n);
    CeilingLog2OfPow2(n);
    CeilingLog2OfPow2(n + 1);
    hide Pow2;
    MaxCapacityIsPow2();
    if n < MAX_LOG2 {
      SmallerExponent(n + 1, MAX_LOG2);
    }
  }

  lemma Doubled(n: nat)
    ensures Pow2(n + 1) == Pow2(n) * 2
  {
  }

  /** The overload test and the size it leads to, for e entries and r tombstones. */
  lemma OverloadArithmetic(capacity: nat, raw: nat, e: nat, r: nat)
    requires raw >= 4 && raw % 4 == 0 && (capacity == 0 || capacity == raw)
    requires 4 * e <= 3 * capacity && e + r <= capacity
    ensures e + r < capacity * 3 / 4 <==> 4 * (e + r + 1) <= 3 * capacity
    ensures
      var newCapacity := if r >= capacity / 4 then raw else raw * 2;
      && e <= newCapacity
      && 4 * e <= 3 * newCapacity
      && (4 * (e + r) <= 3 * capacity ==> 4 * (e + 1) <= 3 * newCapacity)
  {
  }

  lemma HalfSize(n: nat)
    requires MIN_LOG2 <= n && Pow2(n) > MIN_CAPACITY
    ensures n > MIN_LOG2 && Pow2(n) / 2 == Pow2(n - 1) && CeilingLog2(Pow2(n) / 2) == n - 1
  {
    assert Pow2(2) == 4;
    CeilingLog2OfPow2(n - 1);
  }

  lemma BestCapacityLegal(len: nat)
    requires len <= MAX_ENTRIES
    ensures BestCapacity(len) <= MAX_CAPACITY
  {
    BestCapacityFits(len);
    MaxCapacityIsPow2();
    SmallerExponent(CeilingLog2(BestCapacity(len)), MAX_LOG2);
  }

  /** ... and no smaller legal capacity does. */
  lemma BestCapacityLeast(len: nat, n: nat)
    requires len <= MAX_ENTRIES && n >= MIN_LOG2 && Holds(Pow2(n), len)
    ensures BestCapacity(len) <= Pow2(n)
  {
    BestCapacityForm(len);
    var capacity := MinimalCapacity(len);
    if capacity < 4 {
      assert Pow2(2) == 4;
      if n > 2 {
        Pow2Monotone(2, n);
      }
    } else {
      CeilingLog2AtMost(capacity, n);
      if CeilingLog2(capacity) < n {
        Pow2Monotone(CeilingLog2(capacity), n);
      }
    }
  }
}
