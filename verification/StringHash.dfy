/**
 * The string hash of mfbt/HashFunctions.h.
 *
 * The units of a string, 8 or 16 bits wide and unsigned, appear as the 32-bit numbers that AddToHash
 * converts them to.
 */
module StringHash {
  import opened Bits
  import opened DoubleHashing
  import opened Modular

  /** (value << 5) | (value >> 27): the upper 5 bits of the 32 become the lower ones. */
  function RotateLeft5(value: HashNumber): (r: HashNumber)
    ensures r == value % 0x800_0000 * 32 + value / 0x800_0000
  {
    RotatedParts(value);
    Or(value * 32 % TWO_TO_32, value / 0x800_0000)
  }

  lemma RotatedParts(value: HashNumber)
    ensures Or(value * 32 % TWO_TO_32, value / 0x800_0000) == value % 0x800_0000 * 32 + value / 0x800_0000
  {
    hide Or, Pow2;
    var high, low := value / 0x800_0000, value % 0x800_0000;
    DivModUnique(value * 32, TWO_TO_32, high, low * 32);
    Pow2Constants();
    OrAdds(low, high, 5);
  }

  lemma RotateInjective(a: HashNumber, b: HashNumber)
    requires RotateLeft5(a) == RotateLeft5(b)
    ensures a == b
  {
    hide Or, RotateLeft5;
    assert a / 0x800_0000 < 32 && b / 0x800_0000 < 32;
  }

  function AddU32ToHash(hash: HashNumber, value: HashNumber): HashNumber {
    Pow2Constants();
    XorBound(RotateLeft5(hash), value, 32);
    WrappingMultiply(GOLDEN_RATIO, Xor(RotateLeft5(hash), value))
  }

  /** Bit k of the rotated number is the one five places further down, counted round the 32 bits. */
  lemma RotatedBits(value: HashNumber, k: nat)
    requires k < 32
    ensures Bit(RotateLeft5(value), k) <==> Bit(value, if k < 5 then k + 27 else k - 5)
  {
    hide Bit, Or, Pow2;
    var high, low := value / 0x800_0000, value % 0x800_0000;
    Pow2Constants();
    BitsOfSum(low, high, 5, k);
    if k < 5 {
      BitsOfSum(high, low, 27, k + 27);
    } else {
      BitsOfSum(high, low, 27, k - 5);
    }
  }

  /** The bits of the rotated hash and of the value differ in those of a number that the golden ratio multiplies. */
  ghost predicate Mixed(hash: HashNumber, value: HashNumber, next: HashNumber, mix: HashNumber) {
    && (forall k :: 0 <= k < 32 ==> (Bit(mix, k) <==> Bit(hash, if k < 5 then k + 27 else k - 5) != Bit(value, k)))
    && next == mix * 0x9E37_79B9 % 0x1_0000_0000
  }

  lemma AddMixes(hash: HashNumber, value: HashNumber) returns (mix: HashNumber)
    ensures Mixed(hash, value, AddU32ToHash(hash, value), mix)
  {
    hide Bit, Xor, RotateLeft5;
    Pow2Constants();
    XorBound(RotateLeft5(hash), value, 32);
    mix := Xor(RotateLeft5(hash), value);
    forall k | 0 <= k < 32
      ensures Bit(mix, k) <==> Bit(hash, if k < 5 then k + 27 else k - 5) != Bit(value, k)
    {
      BitsOfXorAnd(RotateLeft5(hash), value, k);
      RotatedBits(hash, k);
    }
  }

  /** AddU32ToHash is injective in each argument. */
  lemma AddInjective(h1: HashNumber, v1: HashNumber, h2: HashNumber, v2: HashNumber)
    requires AddU32ToHash(h1, v1) == AddU32ToHash(h2, v2)
    ensures h1 == h2 <==> v1 == v2
  {
    hide Xor, Pow2, RotateLeft5;
    var x1, x2 := Xor(RotateLeft5(h1), v1), Xor(RotateLeft5(h2), v2);
    Pow2Constants();
    XorBound(RotateLeft5(h1), v1, 32);
    XorBound(RotateLeft5(h2), v2, 32);
    OddMultiplierInjective(GOLDEN_RATIO, 32, x1, x2);
    ModSmallEqual(x1, x2, TWO_TO_32);
    XorInjective(RotateLeft5(h1), v1, RotateLeft5(h2), v2);
    if v1 == v2 {
      RotateInjective(h1, h2);
    }
  }

  /** The hash of a string. */
  function HashOf(units: seq<HashNumber>): HashNumber {
    if units == [] then 0 else AddU32ToHash(HashOf(units[..|units| - 1]), units[|units| - 1])
  }

  /** From 0, the units are mixed in one after the other. */
  ghost predicate IsHash(units: seq<HashNumber>, hash: HashNumber) {
    if units == [] then hash == 0
    else
      var n := |units| - 1;
      exists before, mix :: IsHash(units[..n], before) && Mixed(before, units[n], hash, mix)
  }

  lemma {:induction false} HashOfIs(units: seq<HashNumber>)
    ensures IsHash(units, HashOf(units))
  {
    hide Mixed, AddU32ToHash;
    if units != [] {
      var n := |units| - 1;
      HashOfIs(units[..n]);
      var mix := AddMixes(HashOf(units[..n]), units[n]);
    }
  }

  /** A common suffix keeps hashes apart, or together. */
  lemma {:induction false} SuffixCarries(a: seq<HashNumber>, b: seq<HashNumber>, suffix: seq<HashNumber>)
    ensures HashOf(a + suffix) == HashOf(b + suffix) <==> HashOf(a) == HashOf(b)
  {
    if suffix == [] {
      assert a + suffix == a && b + suffix == b;
    } else {
      var n := |suffix| - 1;
      assert (a + suffix)[..|a| + n] == a + suffix[..n] && (b + suffix)[..|b| + n] == b + suffix[..n];
      SuffixCarries(a, b, suffix[..n]);
      if HashOf(a + suffix) == HashOf(b + suffix) {
        AddInjective(HashOf(a + suffix[..n]), suffix[n], HashOf(b + suffix[..n]), suffix[n]);
      }
    }
  }

  /** Strings that differ in just one unit have different hashes. */
  lemma OneUnitApart(a: seq<HashNumber>, b: seq<HashNumber>, i: nat)
    requires |a| == |b| && i < |a| && a[i] != b[i]
    requires forall k :: 0 <= k < |a| && k != i ==> a[k] == b[k]
    ensures HashOf(a) != HashOf(b)
  {
    var prefix, suffix := a[..i], a[i + 1..];
    assert a == prefix + [a[i]] + suffix && b == prefix + [b[i]] + suffix;
    assert (prefix + [a[i]])[..i] == prefix && (prefix + [b[i]])[..i] == prefix;
    SuffixCarries(prefix + [a[i]], prefix + [b[i]], suffix);
    if HashOf(prefix + [a[i]]) == HashOf(prefix + [b[i]]) {
      AddInjective(HashOf(prefix), a[i], HashOf(prefix), b[i]);
    }
  }

  method HashStringKnownLength(units: seq<HashNumber>) returns (hash: HashNumber)
    ensures hash == HashOf(units) && IsHash(units, hash)
  {
    hide AddU32ToHash, IsHash;
    HashOfIs(units);
    hash := 0;
    for i := 0 to |units|
      invariant hash == HashOf(units[..i])
    {
      hash := AddU32ToHash(hash, units[i]);
      assert units[..i + 1][..i] == units[..i];
    }
    assert units[..|units|] == units;
  }

  /** The number of units before the first zero. */
  function LengthUntilZero(units: seq<HashNumber>): (n: nat)
    requires 0 in units
    ensures n < |units| && units[n] == 0 && 0 !in units[..n]
  {
    if units[0] == 0 then 0 else LengthUntilZero(units[1..]) + 1
  }

  /** Hashes the units before the first zero. */
  method HashStringUntilZero(units: seq<HashNumber>) returns (hash: HashNumber)
    requires 0 in units
    ensures hash == HashOf(units[..LengthUntilZero(units)])
  {
    ghost var n := LengthUntilZero(units);
    assert forall k :: 0 <= k < n ==> units[k] == units[..n][k] != 0;
    hash := 0;
    var i := 0;
    while units[i] != 0
      invariant 0 <= i <= n
      invariant hash == HashOf(units[..i])
      decreases |units| - i
    {
      hash := AddU32ToHash(hash, units[i]);
      assert units[..i + 1][..i] == units[..i] && units[..i + 1] == units[..i] + [units[i]];
      i := i + 1;
    }
  }

  /** Terminating a string that has no zero in it and hashing up to the zero hashes the string. */
  method HashTerminated(units: seq<HashNumber>) returns (hash: HashNumber)
    requires 0 !in units
    ensures hash == HashOf(units)
  {
    hash := HashStringUntilZero(units + [0]);
    ghost var length := LengthUntilZero(units + [0]);
    assert (units + [0])[length] == 0 && forall k :: 0 <= k < |units| ==> (units + [0])[k] == units[k];
    assert (units + [0])[..length] == units;
  }
}
