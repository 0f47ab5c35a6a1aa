/**
 * mfbt/CheckedInt.h without compiler builtins: integers that know whether an operation on the way
 * to them was undefined or left the range of their type.
 */
module CheckedInts {
  import opened Bits
  import opened Modular
  import opened Wrappers

  /** An integer type: the four sizes, signed or not. */
  datatype IntType = IntType(bits: nat, signed: bool)

  predicate Supported(t: IntType) {
    t.bits == 8 || t.bits == 16 || t.bits == 32 || t.bits == 64
  }

  function MaxOf(t: IntType): int
    requires Supported(t)
  {
    if t.signed then Pow2(t.bits - 1) - 1 else Pow2(t.bits) - 1
  }

  function MinOf(t: IntType): int
    requires Supported(t)
  {
    if t.signed then 0 - Pow2(t.bits - 1) else 0
  }

  /** x is a value of type t. */
  predicate Fits(t: IntType, x: int)
    requires Supported(t)
  {
    MinOf(t) <= x <= MaxOf(t)
  }

  /** The conversion to the unsigned type of the same size. */
  function Unsigned(t: IntType, x: int): (u: nat)
    ensures u < Pow2(t.bits)
  {
    x % Pow2(t.bits)
  }

  /** C++ division: it rounds towards zero. */
  function TruncDiv(x: int, y: int): int
    requires y != 0
  {
    if (x < 0) == (y < 0) then Abs(x) / Abs(y) else -(Abs(x) / Abs(y))
  }

  function Abs(x: int): nat {
    if x < 0 then -x else x
  }

  // The validity tests ----------------------------------------------------------------------------

  predicate HasSignBit(t: IntType, u: nat)
    requires Supported(t)
  {
    Bit(u, t.bits - 1)
  }

  /** IsInRange<T>(x) for an x of type U: which comparisons are made depends on both types. */
  predicate IsInRange(t: IntType, u: IntType, x: int)
    requires Supported(t) && Supported(u) && Fits(u, x)
  {
    if t.signed == u.signed then
      if t.bits >= u.bits then true
      else if t.signed then x <= MaxOf(t) && x >= MinOf(t)
      else x <= MaxOf(t)
    else if t.signed then
      t.bits > u.bits || x <= MaxOf(t)
    else
      if t.bits >= u.bits then x >= 0 else x >= 0 && x <= MaxOf(t)
  }

  predicate IsAddValid(t: IntType, x: int, y: int)
    requires Supported(t) && Fits(t, x) && Fits(t, y)
  {
    if t.signed then
      var result := (Unsigned(t, x) + Unsigned(t, y)) % Pow2(t.bits);
      XorBound(result, Unsigned(t, x), t.bits);
      XorBound(result, Unsigned(t, y), t.bits);
      AndBound(Xor(result, Unsigned(t, x)), Xor(result, Unsigned(t, y)), t.bits);
      HasSignBit(t, Not(And(Xor(result, Unsigned(t, x)), Xor(result, Unsigned(t, y))), t.bits))
    else
      Not(x, t.bits) >= y
  }

  predicate IsSubValid(t: IntType, x: int, y: int)
    requires Supported(t) && Fits(t, x) && Fits(t, y)
  {
    if t.signed then
      var result := (Unsigned(t, x) - Unsigned(t, y)) % Pow2(t.bits);
      XorBound(result, Unsigned(t, x), t.bits);
      XorBound(Unsigned(t, x), Unsigned(t, y), t.bits);
      AndBound(Xor(result, Unsigned(t, x)), Xor(Unsigned(t, x), Unsigned(t, y)), t.bits);
      HasSignBit(t, Not(And(Xor(result, Unsigned(t, x)), Xor(Unsigned(t, x), Unsigned(t, y))), t.bits))
    else
      x >= y
  }

  /** In the type twice as big where there is one, by division at 64 bits. */
  predicate IsMulValid(t: IntType, x: int, y: int)
    requires Supported(t) && Fits(t, x) && Fits(t, y)
  {
    if t.bits < 64 then
      ProductFits(t, x, y);
      IsInRange(t, IntType(2 * t.bits, t.signed), x * y)
    else if !t.signed then
      y == 0 || x <= TruncDiv(MaxOf(t), y)
    else if x == 0 || y == 0 then
      true
    else if x > 0 then
      if y > 0 then x <= TruncDiv(MaxOf(t), y) else y >= TruncDiv(MinOf(t), x)
    else
      if y > 0 then x >= TruncDiv(MinOf(t), y) else y >= TruncDiv(MaxOf(t), x)
  }

  lemma ProductFits(t: IntType, x: int, y: int)
    requires Supported(t) && t.bits < 64 && Fits(t, x) && Fits(t, y)
    ensures Supported(IntType(2 * t.bits, t.signed)) && Fits(IntType(2 * t.bits, t.signed), x * y)
  {
    hide Pow2;
    DoublePow2(t.bits);
    if t.signed {
      ProductBound(x, y, Pow2(t.bits - 1));
    } else {
      ProductBound(x, y, Pow2(t.bits) - 1);
      assert (Pow2(t.bits) - 1) * (Pow2(t.bits) - 1) <= Pow2(t.bits) * Pow2(t.bits) - 1;
    }
  }

  lemma DoublePow2(n: nat)
    requires 0 < n
    ensures Pow2(2 * n) == Pow2(n) * Pow2(n)
    ensures Pow2(2 * n - 1) == 2 * (Pow2(n - 1) * Pow2(n - 1))
    ensures Pow2(n) == 2 * Pow2(n - 1)
  {
    Pow2Adds(n, n);
    Pow2Adds(n - 1, n - 1);
    assert Pow2(2 * n - 1) == 2 * Pow2(2 * n - 2);
  }

  lemma ProductBound(x: int, y: int, h: int)
    requires -h <= x <= h && -h <= y <= h
    ensures -(h * h) <= x * y <= h * h
    ensures 0 <= x && 0 <= y ==> 0 <= x * y
  {
    MulMonotone(Abs(x), h, Abs(y));
    MulMonotone(Abs(y), h, h);
    assert Abs(x) * Abs(y) <= h * h;
  }

  predicate IsDivValid(t: IntType, x: int, y: int)
    requires Supported(t)
  {
    y != 0 && !(t.signed && x == MinOf(t) && y == -1)
  }

  predicate IsModValid(t: IntType, x: int, y: int) {
    if t.signed && x < 0 then false else y >= 1
  }

  // What the tests mean ---------------------------------------------------------------------------

  lemma Pow2AtMost(a: nat, b: nat)
    requires a <= b
    ensures Pow2(a) <= Pow2(b)
  {
    if a < b {
      Pow2Monotone(a, b);
    }
  }

  /** Whatever the two types, the comparisons made decide whether the value fits. */
  lemma IsInRangeExact(t: IntType, u: IntType, x: int)
    requires Supported(t) && Supported(u) && Fits(u, x)
    ensures IsInRange(t, u, x) <==> Fits(t, x)
  {
    hide Pow2;
    if u.bits <= t.bits {
      Pow2AtMost(u.bits, t.bits);
      Pow2AtMost(u.bits - 1, t.bits - 1);
      Pow2AtMost(u.bits - 1, t.bits);
    }
    if u.bits < t.bits {
      Pow2AtMost(u.bits, t.bits - 1);
    }
  }

  lemma HalfOfPow2(n: nat)
    requires 0 < n
    ensures Pow2(n) == 2 * Pow2(n - 1)
  {
  }

  /** Two's complement: a signed value is itself or 2 to the n more. */
  lemma UnsignedOf(t: IntType, x: int)
    requires Supported(t) && t.signed
    requires 0 - Pow2(t.bits) <= x < Pow2(t.bits)
    ensures Unsigned(t, x) == if x < 0 then x + Pow2(t.bits) else x
  {
    hide Pow2;
    DivModUnique(x, Pow2(t.bits), if x < 0 then -1 else 0, if x < 0 then x + Pow2(t.bits) else x);
  }

  /** The sign bit of ~((a ^ b) & (c ^ d)). */
  lemma SignBitTest(t: IntType, a: nat, b: nat, c: nat, d: nat)
    requires Supported(t)
    requires a < Pow2(t.bits) && b < Pow2(t.bits) && c < Pow2(t.bits) && d < Pow2(t.bits)
    ensures And(Xor(a, b), Xor(c, d)) < Pow2(t.bits)
    ensures var h := Pow2(t.bits - 1);
      HasSignBit(t, Not(And(Xor(a, b), Xor(c, d)), t.bits))
      <==> !((h <= a) != (h <= b) && (h <= c) != (h <= d))
  {
    hide Pow2, Xor, And, Bit;
    var n := t.bits;
    XorBound(a, b, n);
    XorBound(c, d, n);
    AndBound(Xor(a, b), Xor(c, d), n);
    var both := And(Xor(a, b), Xor(c, d));
    BitsOfXorAnd(a, b, n - 1);
    BitsOfXorAnd(c, d, n - 1);
    BitsOfXorAnd(Xor(a, b), Xor(c, d), n - 1);
    TopBit(a, n);
    TopBit(b, n);
    TopBit(c, n);
    TopBit(d, n);
    TopBit(both, n);
    TopBit(Not(both, n), n);
    HalfOfPow2(n);
  }

  lemma ModOfSum(t: IntType, x: int, y: int)
    ensures (Unsigned(t, x) + Unsigned(t, y)) % Pow2(t.bits) == Unsigned(t, x + y)
    ensures (Unsigned(t, x) - Unsigned(t, y)) % Pow2(t.bits) == Unsigned(t, x - y)
  {
    hide Pow2;
    var m := Pow2(t.bits);
    ModAddLeft(x, y % m, m);
    ModAddLeft(y, x, m);
    ModSubLeft(x, y % m, m);
    DivModUnique(y % m, m, 0, y % m);
    ModSubRight(x, y % m, y, m);
  }

  lemma IsAddValidExact(t: IntType, x: int, y: int)
    requires Supported(t) && Fits(t, x) && Fits(t, y)
    ensures IsAddValid(t, x, y) <==> Fits(t, x + y)
  {
    hide Pow2, Xor, And, Bit, Unsigned;
    HalfOfPow2(t.bits);
    if t.signed {
      ModOfSum(t, x, y);
      UnsignedOf(t, x);
      UnsignedOf(t, y);
      UnsignedOf(t, x + y);
      var r := Unsigned(t, x + y);
      SignBitTest(t, r, Unsigned(t, x), r, Unsigned(t, y));
    }
  }

  lemma IsSubValidExact(t: IntType, x: int, y: int)
    requires Supported(t) && Fits(t, x) && Fits(t, y)
    ensures IsSubValid(t, x, y) <==> Fits(t, x - y)
  {
    hide Pow2, Xor, And, Bit, Unsigned;
    HalfOfPow2(t.bits);
    if t.signed {
      ModOfSum(t, x, y);
      UnsignedOf(t, x);
      UnsignedOf(t, y);
      UnsignedOf(t, x - y);
      var r := Unsigned(t, x - y);
      SignBitTest(t, r, Unsigned(t, x), Unsigned(t, x), Unsigned(t, y));
    }
  }

  lemma AtMostQuotient(a: nat, b: nat, c: nat)
    requires 0 < b
    ensures a <= c / b <==> a * b <= c
  {
    assert c == (c / b) * b + c % b;
    if a <= c / b {
      MulMonotone(a, c / b, b);
    } else {
      MulMonotone(c / b + 1, a, b);
    }
  }

  /** The test by division at 64 bits needs no wider type. */
  lemma IsMulValidExact(t: IntType, x: int, y: int)
    requires Supported(t) && Fits(t, x) && Fits(t, y)
    ensures IsMulValid(t, x, y) <==> Fits(t, x * y)
  {
    hide Pow2;
    if t.bits < 64 {
      ProductFits(t, x, y);
      IsInRangeExact(t, IntType(2 * t.bits, t.signed), x * y);
    } else if x != 0 && y != 0 {
      SignsOfProduct(x, y);
      if (x < 0) == (y < 0) {
        AtMostQuotient(Abs(x), Abs(y), MaxOf(t));
        AtMostQuotient(Abs(y), Abs(x), MaxOf(t));
      } else {
        AtMostQuotient(Abs(x), Abs(y), -MinOf(t));
        AtMostQuotient(Abs(y), Abs(x), -MinOf(t));
      }
    }
  }

  lemma SignsOfProduct(x: int, y: int)
    requires x != 0 && y != 0
    ensures x * y == if (x < 0) == (y < 0) then Abs(x) * Abs(y) else -(Abs(x) * Abs(y))
    ensures 0 < Abs(x) * Abs(y) == Abs(y) * Abs(x)
  {
  }

  /** A quotient only leaves the range of its type when the smallest value is divided by -1. */
  lemma IsDivValidExact(t: IntType, x: int, y: int)
    requires Supported(t) && Fits(t, x) && Fits(t, y)
    ensures IsDivValid(t, x, y) <==> y != 0 && Fits(t, TruncDiv(x, y))
  {
    hide Pow2, TruncDiv;
    HalfOfPow2(t.bits);
    if y != 0 {
      TruncDivBound(x, y);
    }
  }

  lemma TruncDivBound(x: int, y: int)
    requires y != 0
    ensures Abs(TruncDiv(x, y)) <= Abs(x) && (1 < Abs(y) && x != 0 ==> Abs(TruncDiv(x, y)) < Abs(x))
    ensures y == 1 ==> TruncDiv(x, y) == x
    ensures y == -1 ==> TruncDiv(x, y) == -x
    ensures 0 <= x && 0 < y ==> 0 <= TruncDiv(x, y)
  {
    QuotientNoLarger(Abs(x), Abs(y));
  }

  lemma QuotientNoLarger(a: nat, b: nat)
    requires 0 < b
    ensures 0 <= a / b <= a && (1 < b && 0 < a ==> a / b < a) && a / 1 == a
  {
    assert a == (a / b) * b + a % b;
    if 1 < b && 0 < a {
      MulMonotone(2, b, a / b);
    } else {
      MulMonotone(1, b, a / b);
    }
  }

  // Checked integers ------------------------------------------------------------------------------

  datatype Checked = Checked(value: int, valid: bool)

  datatype Op = Add | Sub | Mul | Div | Mod

  predicate IsOpValid(t: IntType, op: Op, x: int, y: int)
    requires Supported(t) && Fits(t, x) && Fits(t, y)
  {
    match op
    case Add => IsAddValid(t, x, y)
    case Sub => IsSubValid(t, x, y)
    case Mul => IsMulValid(t, x, y)
    case Div => IsDivValid(t, x, y)
    case Mod => IsModValid(t, x, y)
  }

  /** What the plain C++ operator gives; only meant where it is defined. */
  function Plain(op: Op, x: int, y: int): int
    requires op == Div || op == Mod ==> y != 0
  {
    match op
    case Add => x + y
    case Sub => x - y
    case Mul => x * y
    case Div => TruncDiv(x, y)
    case Mod => x - TruncDiv(x, y) * y
  }

  /** q times y leaves a rest of x that is smaller than y. */
  predicate LeavesRest(x: int, y: int, q: int, rest: int) {
    x == q * y + rest && (-y < rest < y || y < rest < -y)
  }

  /**
   * r is the exact result of the operation. A quotient is rounded towards zero: its rest, if there is one, has the sign
   * of x. A remainder counts as defined where neither side is negative.
   */
  ghost predicate IsResult(op: Op, x: int, y: int, r: int) {
    match op
    case Add => r == x + y
    case Sub => r == x - y
    case Mul => r == x * y
    case Div => exists rest :: LeavesRest(x, y, r, rest) && (rest < 0 ==> x < 0) && (rest > 0 ==> x > 0)
    case Mod => 0 <= x && 0 <= r < y && exists q :: LeavesRest(x, y, q, r)
  }

  lemma QuotientsAgree(x: int, y: int, q: int, rest: int, q': int, rest': int)
    requires LeavesRest(x, y, q, rest) && LeavesRest(x, y, q', rest') && (rest < 0 ==> rest' <= 0)
    requires rest > 0 ==> rest' >= 0
    ensures q == q' && rest == rest'
  {
    var d := q - q';
    assert d * y == rest' - rest by {
      assert q * y - q' * y == d * y;
    }
    if y < 0 {
      assert -d * -y == d * y;
      MulMagnitude(-d, -y);
    } else {
      MulMagnitude(d, y);
    }
  }

  /** There is at most one result. */
  lemma ResultUnique(op: Op, x: int, y: int, r: int, r': int)
    requires IsResult(op, x, y, r) && IsResult(op, x, y, r')
    ensures r == r'
  {
    match op
    case Div =>
      var rest :| LeavesRest(x, y, r, rest) && (rest < 0 ==> x < 0) && (rest > 0 ==> x > 0);
      var rest' :| LeavesRest(x, y, r', rest') && (rest' < 0 ==> x < 0) && (rest' > 0 ==> x > 0);
      QuotientsAgree(x, y, r, rest, r', rest');
    case Mod =>
      var q :| LeavesRest(x, y, q, r);
      var q' :| LeavesRest(x, y, q', r');
      QuotientsAgree(x, y, q, r, q', r');
    case _ =>
  }

  /** When an operation counts as defined, apart from the range of its result. */
  predicate Defined(op: Op, x: int, y: int) {
    match op
    case Div => y != 0
    case Mod => 0 <= x && 0 < y
    case _ => true
  }

  lemma TruncDivRest(x: int, y: int)
    requires y != 0
    ensures exists rest :: LeavesRest(x, y, TruncDiv(x, y), rest) && (rest < 0 ==> x < 0) && (rest > 0 ==> x > 0)
  {
    hide *;
    Magnitudes(x);
    Magnitudes(y);
    var q, r := DivModOf(Abs(x), Abs(y));
    TruncDivSigns(x, y, Abs(y), q, r);
    RestWithSign(x, y, TruncDiv(x, y), Abs(y), r);
  }

  lemma DivModOf(a: nat, b: nat) returns (q: int, r: int)
    requires 0 < b
    ensures q == a / b && a == q * b + r && 0 <= r < b
  {
    q, r := a / b, a % b;
  }

  lemma RestWithSign(x: int, y: int, q: int, b: int, r: int)
    requires q * y + (if x < 0 then -r else r) == x && 0 <= r < b && b == (if y < 0 then -y else y)
    requires x == 0 ==> r == 0
    ensures exists rest :: LeavesRest(x, y, q, rest) && (rest < 0 ==> x < 0) && (rest > 0 ==> x > 0)
  {
    assert LeavesRest(x, y, q, if x < 0 then -r else r);
  }

  lemma Magnitudes(x: int)
    ensures Abs(x) as int == if x < 0 then -x else x
  {
  }

  lemma TruncDivSigns(x: int, y: int, b: int, q: int, r: int)
    requires y != 0 && b == Abs(y) && q == Abs(x) / Abs(y) && Abs(x) == q * b + r && 0 <= r < b
    ensures TruncDiv(x, y) * y + (if x < 0 then -r else r) == x && (x == 0 ==> r == 0)
  {
    SignsInProduct(q, b);
    assert TruncDiv(x, y) == if (x < 0) == (y < 0) then q else -q;
    assert y == if y < 0 then -b else b;
  }

  lemma SignsInProduct(q: int, b: int)
    ensures -q * b == -(q * b) && q * -b == -(q * b) && -q * -b == q * b
  {
  }

  /** The operator gives the result, and there is one exactly where the operation is defined. */
  lemma PlainIsResult(op: Op, x: int, y: int)
    ensures Defined(op, x, y) <==> exists r :: IsResult(op, x, y, r)
    ensures Defined(op, x, y) ==> IsResult(op, x, y, Plain(op, x, y))
  {
    hide TruncDiv;
    if op == Div && y != 0 {
      TruncDivRest(x, y);
      assert IsResult(op, x, y, TruncDiv(x, y));
    } else if op == Mod && Defined(op, x, y) {
      TruncDivRest(x, y);
      var rest :| LeavesRest(x, y, TruncDiv(x, y), rest) && (rest < 0 ==> x < 0) && (rest > 0 ==> x > 0);
      assert rest == x - TruncDiv(x, y) * y;
      assert IsResult(op, x, y, rest);
    } else if Defined(op, x, y) {
      assert IsResult(op, x, y, Plain(op, x, y));
    }
  }

  /** The exact result exists and is a value of the type. */
  ghost predicate Representable(t: IntType, op: Op, x: int, y: int)
    requires Supported(t)
  {
    exists r :: IsResult(op, x, y, r) && Fits(t, r)
  }

  lemma RepresentableIff(t: IntType, op: Op, x: int, y: int)
    requires Supported(t)
    ensures Representable(t, op, x, y) <==> Defined(op, x, y) && Fits(t, Plain(op, x, y))
    ensures Defined(op, x, y) ==> IsResult(op, x, y, Plain(op, x, y))
  {
    hide IsResult, Plain, Fits;
    PlainIsResult(op, x, y);
    if Representable(t, op, x, y) {
      var r :| IsResult(op, x, y, r) && Fits(t, r);
      ResultUnique(op, x, y, r, Plain(op, x, y));
    }
  }

  /** The binary operators. The plain operator is only reached when it cannot trap. */
  function Combine(t: IntType, op: Op, a: Checked, b: Checked): Checked
    requires Supported(t) && Fits(t, a.value) && Fits(t, b.value)
  {
    if !IsOpValid(t, op, a.value, b.value) then Checked(0, false)
    else Checked(Plain(op, a.value, b.value), a.valid && b.valid)
  }

  function NegateChecked(t: IntType, a: Checked): Checked
    requires Supported(t)
  {
    if !t.signed then Checked(0, a.valid && a.value == 0)
    else if !a.valid || a.value == MinOf(t) then Checked(a.value, false)
    else Checked(-a.value, true)
  }

  /** The conversion to t, which wraps around. */
  function Cast(t: IntType, x: int): int
    requires Supported(t)
  {
    if t.signed then (x + Pow2(t.bits - 1)) % Pow2(t.bits) - Pow2(t.bits - 1) else x % Pow2(t.bits)
  }

  /** The constructor from a plain integer of type u. */
  function FromPlain(t: IntType, u: IntType, x: int): Checked
    requires Supported(t) && Supported(u) && Fits(u, x)
  {
    Checked(Cast(t, x), IsInRange(t, u, x))
  }

  lemma CastFits(t: IntType, x: int)
    requires Supported(t)
    ensures Fits(t, Cast(t, x)) && (Fits(t, x) ==> Cast(t, x) == x)
  {
    hide Pow2;
    HalfOfPow2(t.bits);
    if Fits(t, x) {
      var shifted := if t.signed then x + Pow2(t.bits - 1) else x;
      DivModUnique(shifted, Pow2(t.bits), 0, shifted);
    }
  }

  /** What is cut off is a multiple of 2 to the number of bits. */
  lemma CastWraps(t: IntType, x: int)
    requires Supported(t)
    ensures exists k :: x == k * Pow2(t.bits) + Cast(t, x)
  {
    hide Pow2;
    var shifted := if t.signed then x + Pow2(t.bits - 1) else x;
    var k := shifted / Pow2(t.bits);
    assert x == k * Pow2(t.bits) + Cast(t, x);
  }

  lemma ModIsRemainder(x: int, y: int)
    requires 0 <= x && 0 < y
    ensures 0 <= Plain(Mod, x, y) == x % y <= x
  {
    assert x == (x / y) * y + x % y;
    QuotientNoLarger(x, y);
    MulMonotone(0, x / y, y);
  }

  /** One operation: valid just when both sides are and the exact result is defined and fits. */
  lemma CombineExact(t: IntType, op: Op, a: Checked, b: Checked)
    requires Supported(t) && Fits(t, a.value) && Fits(t, b.value)
    ensures Fits(t, Combine(t, op, a, b).value)
    ensures Combine(t, op, a, b).valid <==>
      a.valid && b.valid && Representable(t, op, a.value, b.value)
    ensures var v := Combine(t, op, a, b).value;
      if Representable(t, op, a.value, b.value) then IsResult(op, a.value, b.value, v) else v == 0
  {
    hide Pow2, IsAddValid, IsSubValid, IsMulValid, TruncDiv, IsResult, Representable;
    RepresentableIff(t, op, a.value, b.value);
    var x, y := a.value, b.value;
    match op
    case Add => IsAddValidExact(t, x, y);
    case Sub => IsSubValidExact(t, x, y);
    case Mul => IsMulValidExact(t, x, y);
    case Div => IsDivValidExact(t, x, y);
    case Mod =>
      if 0 <= x && 0 < y {
        ModIsRemainder(x, y);
      }
  }

  /** An expression over plain integers of any types. */
  datatype Expr = Plainly(u: IntType, x: int) | Negated(e: Expr) | Binary(op: Op, left: Expr, right: Expr)

  predicate WellTyped(e: Expr) {
    match e
    case Plainly(u, x) => Supported(u) && Fits(u, x)
    case Negated(a) => WellTyped(a)
    case Binary(_, l, r) => WellTyped(l) && WellTyped(r)
  }

  /** What computing the expression with checked integers of type t gives. */
  function Computed(t: IntType, e: Expr): (r: Checked)
    requires Supported(t) && WellTyped(e)
    ensures Fits(t, r.value)
  {
    match e
    case Plainly(u, x) => CastFits(t, x); FromPlain(t, u, x)
    case Negated(a) => NegateChecked(t, Computed(t, a))
    case Binary(op, l, r) =>
      CombineExact(t, op, Computed(t, l), Computed(t, r));
      Combine(t, op, Computed(t, l), Computed(t, r))
  }

  /** The exact value, provided it and those of all subexpressions are defined and fit t. */
  ghost function Exact(t: IntType, e: Expr): Option<int>
    requires Supported(t)
  {
    match e
    case Plainly(_, x) => InType(t, x)
    case Negated(a) =>
      var v := Exact(t, a);
      if v.Some? then InType(t, -v.value) else None
    case Binary(op, l, r) =>
      var v, w := Exact(t, l), Exact(t, r);
      if v.None? || w.None? then None
      else if r :| IsResult(op, v.value, w.value, r) && Fits(t, r) then Some(r) else None
  }

  function InType(t: IntType, x: int): Option<int>
    requires Supported(t)
  {
    if Fits(t, x) then Some(x) else None
  }

  /** A checked computation is valid just when nothing in it is undefined or out of range, and then exact. */
  lemma {:induction false} CheckedIsExact(t: IntType, e: Expr)
    requires Supported(t) && WellTyped(e)
    ensures Computed(t, e).valid <==> Exact(t, e).Some?
    ensures Computed(t, e).valid ==> Computed(t, e).value == Exact(t, e).value
  {
    hide Pow2, IsResult, Representable, Combine;
    match e
    case Plainly(u, x) =>
      IsInRangeExact(t, u, x);
      CastFits(t, x);
    case Negated(a) =>
      HalfOfPow2(t.bits);
      CheckedIsExact(t, a);
    case Binary(op, l, r) =>
      CheckedIsExact(t, l);
      CheckedIsExact(t, r);
      CombineExact(t, op, Computed(t, l), Computed(t, r));
      ExactBinary(t, op, l, r);
  }

  lemma ExactBinary(t: IntType, op: Op, l: Expr, r: Expr)
    requires Supported(t)
    ensures var v, w, e := Exact(t, l), Exact(t, r), Exact(t, Binary(op, l, r));
      && (e.Some? <==> v.Some? && w.Some? && Representable(t, op, v.value, w.value))
      && (e.Some? ==> forall x :: IsResult(op, v.value, w.value, x) ==> x == e.value)
  {
    hide IsResult, Fits;
    var v, w, e := Exact(t, l), Exact(t, r), Exact(t, Binary(op, l, r));
    if e.Some? {
      forall x | IsResult(op, v.value, w.value, x) ensures x == e.value {
        ResultUnique(op, v.value, w.value, x, e.value);
      }
    }
  }

  /** A checked integer as an object: the compound assignments overwrite it. */
  class CheckedInt {
    const t: IntType
    var mValue: int
    var mIsValid: bool

    predicate Valid()
      reads this
    {
      Supported(t) && Fits(t, mValue)
    }

    function Now(): Checked
      reads this
    {
      Checked(mValue, mIsValid)
    }

    constructor (t: IntType, u: IntType, x: int)
      requires Supported(t) && Supported(u) && Fits(u, x)
      ensures Valid() && this.t == t && (mIsValid <==> Fits(t, x)) && (mIsValid ==> mValue == x)
      ensures exists k :: x == k * Pow2(t.bits) + mValue
    {
      IsInRangeExact(t, u, x);
      CastFits(t, x);
      CastWraps(t, x);
      this.t, mValue, mIsValid := t, Cast(t, x), IsInRange(t, u, x);
    }

    /**
     * x op= y. Valid afterwards just when both sides were and the exact result is defined and fits; the value is the
     * exact result wherever that is defined and fits, and 0 otherwise.
     */
    method OpAssign(op: Op, rhs: Checked)
      requires Valid() && Fits(t, rhs.value)
      modifies this
      ensures Valid()
      ensures mIsValid <==> old(mIsValid) && rhs.valid && Representable(t, op, old(mValue), rhs.value)
      ensures if Representable(t, op, old(mValue), rhs.value) then IsResult(op, old(mValue), rhs.value, mValue)
        else mValue == 0
    {
      CombineExact(t, op, Now(), rhs);
      var r := Combine(t, op, Now(), rhs);
      mValue, mIsValid := r.value, r.valid;
    }

    lemma NextFits(op: Op)
      requires Supported(t) && (op == Add || op == Sub)
      ensures Representable(t, op, mValue, 1) <==> Fits(t, if op == Add then mValue + 1 else mValue - 1)
    {
      hide Fits;
      var r := if op == Add then mValue + 1 else mValue - 1;
      assert IsResult(op, mValue, 1, r);
    }

    lemma OneFits()
      requires Supported(t)
      ensures Fits(t, 1) && Fits(t, 0)
    {
      Pow2AtMost(2, t.bits - 1);
    }

    /** x++: the old value is returned. */
    method PostIncrement() returns (was: Checked)
      requires Valid()
      modifies this
      ensures was == old(Now()) && Valid()
      ensures mIsValid <==> old(mIsValid) && old(mValue) < MaxOf(t)
      ensures mIsValid ==> mValue == old(mValue) + 1
    {
      hide Pow2, Representable;
      OneFits();
      NextFits(Add);
      was := Now();
      OpAssign(Add, Checked(1, true));
    }

    /** x--. */
    method PostDecrement() returns (was: Checked)
      requires Valid()
      modifies this
      ensures was == old(Now()) && Valid()
      ensures mIsValid <==> old(mIsValid) && MinOf(t) < old(mValue)
      ensures mIsValid ==> mValue == old(mValue) - 1
    {
      hide Pow2, Representable;
      OneFits();
      NextFits(Sub);
      was := Now();
      OpAssign(Sub, Checked(1, true));
    }
  }
}
